# Entity-type table overrides registry

A model of `RelationalEntityTypeOverrides`. This is the registry through which a relational
metadata model keeps, for each entity type, one override record per table-like store object
(table, view or function mapping). The registry is stored as a single annotation on the entity
type. The annotation's value is either absent or a dictionary from `StoreObjectIdentifier` to the
override record for that store object.

- `options.dfy`: `Option`, the "absent" result that stands for a C# `null`.
- `ordinal.dfy`: `StringComparer.Ordinal` on UTF-16 strings. A .NET string is a sequence of 16-bit
  code units, so names are `seq<CodeUnit>` rather than Dafny `string`s, whose characters are Unicode
  scalar values. The module proves that ordinal order is a total order.
- `store_objects.dfy`: the `StoreObjectIdentifier` key, which uses structural equality. This file
  also defines what it means for a key sequence to be an ordered enumeration of a key set, and
  `OrderedKeys`, which computes one.
- `entity_type_overrides.dfy`: the entity type's state, the override record, and `Find`, `Get`,
  both `GetOrCreate` overloads and `IsReadOnly`. It also holds the lemmas relating these to one
  another.

The entity type is a value with three fields: `id`, `readOnly` and
`overrides: Option<map<StoreObjectIdentifier, Overrides>>`. Operations are pure functions.
`GetOrCreate` returns the updated entity type next to the record. `Find` and `Get` return no new
state, so they cannot change anything. `Valid(e)` is the registry invariant: every record stored
under a store object `s` is the record created for `(e, s)`. The only writer, `GetOrCreate`,
preserves it.

## Model

| member | source | states |
|---|---|---|
| EntityTypeOverrides.IsReadOnly | src/EFCore.Relational/Metadata/Internal/RelationalEntityTypeOverrides.cs:48-49 | A record's read-only flag is its owning entity type's flag, read at the time of the call rather than stored on the record. |
| Ordinal.CompareOrdinal | src/EFCore.Relational/Metadata/Internal/RelationalEntityTypeOverrides.cs:77 | The ordinal comparison's sign is -1, 0 or 1, and it is zero exactly for equal strings. An empty string sorts before a non-empty one, and differing first code units decide the order. |
| Ordinal.CompareOrdinalIsLexicographic | src/EFCore.Relational/Metadata/Internal/RelationalEntityTypeOverrides.cs:77 | The comparison is lexicographic on code units. A proper prefix sorts first. Otherwise the first code unit at which the two strings differ decides the order. |
| Ordinal.CompareOrdinalAntisymmetric | src/EFCore.Relational/Metadata/Internal/RelationalEntityTypeOverrides.cs:77 | Swapping the operands of the ordinal comparison negates its result. |
| Ordinal.OrdinalLeReflexive | src/EFCore.Relational/Metadata/Internal/RelationalEntityTypeOverrides.cs:77 | Every name sorts no later than itself. |
| Ordinal.OrdinalLeTotal | src/EFCore.Relational/Metadata/Internal/RelationalEntityTypeOverrides.cs:77 | Any two names are ordered one way or the other, so `OrderBy` has a key order to follow. |
| Ordinal.OrdinalLeAntisymmetric | src/EFCore.Relational/Metadata/Internal/RelationalEntityTypeOverrides.cs:77 | Two names that each sort no later than the other are equal. |
| Ordinal.OrdinalLeTransitive | src/EFCore.Relational/Metadata/Internal/RelationalEntityTypeOverrides.cs:77 | Ordinal order is transitive. |
| StoreObjects.LeastByNameExists | src/EFCore.Relational/Metadata/Internal/RelationalEntityTypeOverrides.cs:77 | Every non-empty set of store objects has one whose name sorts no later than all the others. |
| StoreObjects.OrderedEnumerationLength | src/EFCore.Relational/Metadata/Internal/RelationalEntityTypeOverrides.cs:77-78 | An ordered enumeration of a key set has exactly as many entries as the set has keys, so it is a permutation of the set. |
| StoreObjects.OrderedEnumerationUnique | src/EFCore.Relational/Metadata/Internal/RelationalEntityTypeOverrides.cs:77 | When no two store objects share a name, ordering by name leaves exactly one enumeration. In that case the enumeration is deterministic. |
| StoreObjects.OrderedKeys | src/EFCore.Relational/Metadata/Internal/RelationalEntityTypeOverrides.cs:77 | Produces an enumeration of the dictionary's keys that lists each key exactly once, non-decreasing by ordinal name. |
| EntityTypeOverrides.Find | src/EFCore.Relational/Metadata/Internal/RelationalEntityTypeOverrides.cs:57-65 | Finds a record exactly when the annotation exists and holds the key, and then returns the stored record. A missing annotation gives absent. In a valid registry the found record is bound to the entity type and the requested store object. |
| EntityTypeOverrides.Get | src/EFCore.Relational/Metadata/Internal/RelationalEntityTypeOverrides.cs:73-79 | Returns absent exactly when there is no annotation. Otherwise it returns one record per dictionary entry, each record being what `Find` returns for its key. Records come in non-decreasing ordinal order of their store object's names, and in a valid registry no record appears twice. |
| EntityTypeOverrides.GetOrCreate | src/EFCore.Relational/Metadata/Internal/RelationalEntityTypeOverrides.cs:87-106 | The annotation is present afterwards and its keys are the old keys plus the requested one. Old entries keep their records. The returned record is the one stored under the key, and it is newly bound to `(e, s)` when the key was missing. Identity and read-only flag are unchanged. |
| EntityTypeOverrides.GetOrCreateByConvention | src/EFCore.Relational/Metadata/Internal/RelationalEntityTypeOverrides.cs:114-117 | The convention overload gives the same state and record as the mutable overload. `Find` then returns that record. |
| EntityTypeOverrides.FindWithoutOverridesIsAbsent | src/EFCore.Relational/Metadata/Internal/RelationalEntityTypeOverrides.cs:59-64 | With no annotation, `Find` is absent for every store object. |
| EntityTypeOverrides.GetOrCreateInstallsMap | src/EFCore.Relational/Metadata/Internal/RelationalEntityTypeOverrides.cs:91-103 | On an entity type with no annotation, `GetOrCreate` installs a map with exactly one entry. That entry maps the requested key to a fresh record for it. |
| EntityTypeOverrides.GetOrCreateExistingLeavesMap | src/EFCore.Relational/Metadata/Internal/RelationalEntityTypeOverrides.cs:99-105 | For a key already present, `GetOrCreate` returns the record `Find` returns and leaves the entity type unchanged. |
| EntityTypeOverrides.GetOrCreateMissingAddsOne | src/EFCore.Relational/Metadata/Internal/RelationalEntityTypeOverrides.cs:20-24 | For a missing key, exactly one entry is added and every other entry is unchanged. The new record's entity type and store object are the arguments, as the constructor binds them. |
| EntityTypeOverrides.GetOrCreateIdempotent | src/EFCore.Relational/Metadata/Internal/RelationalEntityTypeOverrides.cs:87-106 | Calling `GetOrCreate` a second time with the same key returns the same record and the same state as the first call. |
| EntityTypeOverrides.FindAfterGetOrCreate | src/EFCore.Relational/Metadata/Internal/RelationalEntityTypeOverrides.cs:57-106 | After `GetOrCreate(e, s)` returns `r`, `Find` on the new state with `s` returns `r`. |
| EntityTypeOverrides.GetOrCreateFramesOtherKeys | src/EFCore.Relational/Metadata/Internal/RelationalEntityTypeOverrides.cs:99-103 | `GetOrCreate` for one store object does not change the lookup result of any other store object. |
| EntityTypeOverrides.GetOrCreatePreservesValid | src/EFCore.Relational/Metadata/Internal/RelationalEntityTypeOverrides.cs:99-103 | `GetOrCreate` keeps the registry invariant: each key maps to the record created for this entity type and that key. The returned record is that record. |
| EntityTypeOverrides.GetOrCreateCommutes | src/EFCore.Relational/Metadata/Internal/RelationalEntityTypeOverrides.cs:91-103 | Requesting two store objects in either order gives the same entity-type state. |
| EntityTypeOverrides.DistinctStoreObjectsDistinctRecords | src/EFCore.Relational/Metadata/Internal/RelationalEntityTypeOverrides.cs:87-106 | Two different store objects get two different records, and afterwards `Find` reaches both. |
| EntityTypeOverrides.ReadOnlyMirrorsOwner | src/EFCore.Relational/Metadata/Internal/RelationalEntityTypeOverrides.cs:48-49 | A found record belongs to its entity type, and its read-only flag is the entity type's flag. Changing only the entity type's flag changes every record's flag to match. |
| EntityTypeOverrides.GetOrCreateRecordReadOnly | src/EFCore.Relational/Metadata/Internal/RelationalEntityTypeOverrides.cs:48-49 | The record `GetOrCreate` returns reports the owner's read-only flag, which `GetOrCreate` leaves unchanged. |
| EntityTypeOverrides.EnumerationIgnoresInsertionOrder | src/EFCore.Relational/Metadata/Internal/RelationalEntityTypeOverrides.cs:77-78 | On an entity type that starts with no annotation, request "B" and then "A". The only ordered enumeration of the result is `[A, B]`. |
| EntityTypeOverrides.GetAfterRequestingBThenA | src/EFCore.Relational/Metadata/Internal/RelationalEntityTypeOverrides.cs:73-79 | On an entity type that starts with no annotation, request "B" and then "A". `Get` then returns exactly the record for "A" followed by the record for "B". |

## Left out

- `RuntimeRelationalEntityTypeOverrides`: its constructor only stores two fields and it has no registry logic.
- The generic annotation machinery: `ConventionAnnotatable`, `AnnotatableBase` and the `entityType[...]` indexer. The annotation is modelled as the `overrides` field of the entity type's state. The casts of the annotation value to a dictionary are likewise typing plumbing.
- Rejection of writes on a read-only entity type is not modelled. That rejection belongs to the annotation base layer, which is not part of this model, so `GetOrCreate` is modelled without a read-only check. `GetOrCreate` (RelationalEntityTypeOverrides.cs:87-106) performs no read-only check itself; only the annotation write at line 96 goes through the annotation layer. Also, when the dictionary already exists, the source adds to it directly rather than through the annotation setter.
- A record's own bag of facet annotations is not modelled, because the facets are defined elsewhere.
- Reference identity: records are compared by value, meaning entity type and store object. The registry never creates two records for one key, so this stands in for "the same instance".
- The casts between the `IRelationalEntityTypeOverrides`, `IMutableEntityType`, `IConventionEntityType` and `IEntityType` views are not modelled. Neither are the explicit interface property or `[DebuggerStepThrough]`. All of these are typing plumbing, and the entity type is a single value in the model.
- Lazy `IEnumerable` evaluation: `Get` returns a finished sequence.
- `StoreObjectIdentifier.cs` is not part of this model. Its kind is reduced to table, view and function, and the registry's logic does not depend on the kind.
- Ordinal.CompareOrdinal: returns only the sign, -1, 0 or 1. The .NET comparer returns an arbitrary integer of that sign, and `OrderBy` only looks at the sign.
- EntityTypeOverrides.Get: does not fix the order among records whose store objects share a name. .NET's stable `OrderBy` would keep dictionary enumeration order for those records, and the dictionary is modelled as a map without insertion order. The source does not promise that order either.
