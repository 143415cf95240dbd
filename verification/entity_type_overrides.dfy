/** The per-entity-type registry of table-mapping overrides. An entity type
    carries at most one overrides annotation; its value is either absent or a
    dictionary from store object to the override record for that store object.
    `Find` and `Get` read it, and `GetOrCreate` lazily installs it and adds
    records to it. Every operation is a pure function of the entity type's
    state; an operation that changes the state returns the new state next to
    its result. */
module EntityTypeOverrides {

  import opened Options
  import opened Ordinal
  import opened StoreObjects

  /** Identity of an entity type of the host model (an object reference there). */
  type EntityTypeId = nat

  /** An override record: binds one entity type to one store object. The
      record's own bag of facet annotations is not modelled. */
  datatype Overrides = Overrides(entityType: EntityTypeId, storeObject: StoreObjectIdentifier)

  /** The part of an entity type's state that the registry uses: its identity,
      its read-only flag, and the overrides annotation. */
  datatype EntityType = EntityType(
    id: EntityTypeId,
    readOnly: bool,
    overrides: Option<map<StoreObjectIdentifier, Overrides>>)

  /** The records of `e`, seen as a map that is empty when there is no annotation. */
  function Entries(e: EntityType): map<StoreObjectIdentifier, Overrides> {
    if e.overrides.Some? then e.overrides.value else map[]
  }

  /** The registry only ever stores under a store object the record created
      for that store object and for this entity type. */
  predicate Valid(e: EntityType) {
    forall s :: s in Entries(e) ==> Entries(e)[s] == Overrides(e.id, s)
  }

  /** A record is read-only exactly when its owning entity type is: the flag
      is not stored on the record but read from `owner` each time. */
  function IsReadOnly(record: Overrides, owner: EntityType): (readOnly: bool)
    requires record.entityType == owner.id
    ensures readOnly == owner.readOnly
  {
    owner.readOnly
  }

  /** Exact-key lookup. A missing annotation and a missing key both give
      `None`; nothing is changed. */
  function Find(e: EntityType, s: StoreObjectIdentifier): (r: Option<Overrides>)
    ensures e.overrides.None? ==> r.None?
    ensures r.Some? <==> s in Entries(e)
    ensures r.Some? ==> r.value == Entries(e)[s]
    ensures r.Some? && Valid(e) ==> r.value == Overrides(e.id, s)
  {
    match e.overrides
    case None => None
    case Some(m) => if s in m then Some(m[s]) else None
  }

  /** All records of `e`, ordered by their store object's name under ordinal
      comparison, or `None` when `e` has no overrides annotation. The ghost
      `keys` lists the store objects in the order their records come. */
  method Get(e: EntityType) returns (r: Option<seq<Overrides>>, ghost keys: seq<StoreObjectIdentifier>)
    ensures r.None? <==> e.overrides.None?
    ensures r.Some? ==> IsOrderedEnumeration(Entries(e).Keys, keys)
    ensures r.Some? ==> |r.value| == |keys| == |Entries(e)|
    ensures r.Some? ==> forall i :: 0 <= i < |r.value| ==> Find(e, keys[i]) == Some(r.value[i])
    ensures r.Some? ==> forall s :: s in Entries(e) ==> Entries(e)[s] in r.value
    ensures r.Some? && Valid(e) ==>
      forall i, j :: 0 <= i < j < |r.value| ==>
        r.value[i] != r.value[j] && OrdinalLe(r.value[i].storeObject.name, r.value[j].storeObject.name)
  {
    if e.overrides.None? {
      return None, [];
    }
    var m := e.overrides.value;
    var ks := OrderedKeys(m.Keys);
    var records := [];
    var i := 0;
    while i < |ks|
      invariant 0 <= i <= |ks|
      invariant |records| == i
      invariant forall j :: 0 <= j < i ==> records[j] == m[ks[j]]
    {
      records := records + [m[ks[i]]];
      i := i + 1;
    }
    forall s | s in m
      ensures m[s] in records
    {
      var j :| 0 <= j < |ks| && ks[j] == s;
      assert records[j] == m[s];
    }
    r, keys := Some(records), ks;
  }

  /** Returns the record of `e` for `s`, creating the annotation and the
      record on first use. The returned state is `e` with at most one entry
      added; its identity and read-only flag are those of `e`. */
  function GetOrCreate(e: EntityType, s: StoreObjectIdentifier): (result: (EntityType, Overrides))
    ensures result.0.id == e.id && result.0.readOnly == e.readOnly
    ensures result.0.overrides.Some?
    ensures Entries(result.0).Keys == Entries(e).Keys + {s}
    ensures forall k :: k in Entries(e) ==> Entries(result.0)[k] == Entries(e)[k]
    ensures Entries(result.0)[s] == result.1
    ensures s !in Entries(e) ==> result.1 == Overrides(e.id, s)
  {
    var m := if e.overrides.None? then map[] else e.overrides.value;
    var e' := e.(overrides := Some(m));
    if s in m then
      (e', m[s])
    else
      var created := Overrides(e.id, s);
      (e'.(overrides := Some(m[s := created])), created)
  }

  /** The overload taking a convention-time view of the entity type: it casts
      the same entity type to its mutable view and delegates, so it behaves
      exactly like `GetOrCreate`. */
  function GetOrCreateByConvention(e: EntityType, s: StoreObjectIdentifier): (result: (EntityType, Overrides))
    ensures result == GetOrCreate(e, s)
    ensures Find(result.0, s) == Some(result.1)
  {
    GetOrCreate(e, s)
  }

  /** Without an annotation, `Find` reports every store object absent. */
  lemma FindWithoutOverridesIsAbsent(e: EntityType)
    requires e.overrides.None?
    ensures forall s :: Find(e, s).None?
  {
  }

  /** Creating on an entity type without an annotation installs a map with
      exactly one entry, for the requested store object. */
  lemma GetOrCreateInstallsMap(e: EntityType, s: StoreObjectIdentifier)
    requires e.overrides.None?
    ensures GetOrCreate(e, s).0.overrides == Some(map[s := Overrides(e.id, s)])
    ensures |Entries(GetOrCreate(e, s).0)| == 1
  {
  }

  /** For a store object already present, the stored record is returned and
      the map is left as it was. */
  lemma GetOrCreateExistingLeavesMap(e: EntityType, s: StoreObjectIdentifier)
    requires Find(e, s).Some?
    ensures GetOrCreate(e, s).1 == Find(e, s).value
    ensures GetOrCreate(e, s).0 == e
  {
  }

  /** For a missing store object exactly one entry is added: the record for
      `(e, s)`, while every other entry keeps its record. */
  lemma GetOrCreateMissingAddsOne(e: EntityType, s: StoreObjectIdentifier)
    requires Find(e, s).None?
    ensures |Entries(GetOrCreate(e, s).0)| == |Entries(e)| + 1
    ensures Entries(GetOrCreate(e, s).0) == Entries(e)[s := Overrides(e.id, s)]
    ensures GetOrCreate(e, s).1.entityType == e.id && GetOrCreate(e, s).1.storeObject == s
  {
  }

  /** Calling `GetOrCreate` twice with the same store object returns the same
      record and leaves the same state as calling it once. */
  lemma GetOrCreateIdempotent(e: EntityType, s: StoreObjectIdentifier)
    ensures GetOrCreate(GetOrCreate(e, s).0, s) == GetOrCreate(e, s)
  {
  }

  /** Whatever `GetOrCreate` returns is what `Find` then finds. */
  lemma FindAfterGetOrCreate(e: EntityType, s: StoreObjectIdentifier)
    ensures Find(GetOrCreate(e, s).0, s) == Some(GetOrCreate(e, s).1)
  {
  }

  /** Creating records never disturbs the lookup of another store object. */
  lemma GetOrCreateFramesOtherKeys(e: EntityType, s: StoreObjectIdentifier, t: StoreObjectIdentifier)
    requires t != s
    ensures Find(GetOrCreate(e, s).0, t) == Find(e, t)
  {
  }

  /** The registry invariant is kept: every record stored is the one for
      its own store object and this entity type. */
  lemma GetOrCreatePreservesValid(e: EntityType, s: StoreObjectIdentifier)
    requires Valid(e)
    ensures Valid(GetOrCreate(e, s).0)
    ensures GetOrCreate(e, s).1 == Overrides(e.id, s)
  {
  }

  /** The map that results does not depend on the order in which two store
      objects were first requested. */
  lemma GetOrCreateCommutes(e: EntityType, s: StoreObjectIdentifier, t: StoreObjectIdentifier)
    ensures GetOrCreate(GetOrCreate(e, s).0, t).0 == GetOrCreate(GetOrCreate(e, t).0, s).0
  {
    var a := GetOrCreate(GetOrCreate(e, s).0, t).0;
    var b := GetOrCreate(GetOrCreate(e, t).0, s).0;
    assert Entries(a) == Entries(b);
  }

  /** Two different store objects give two different records, both in the
      registry afterwards. */
  lemma DistinctStoreObjectsDistinctRecords(e: EntityType, s: StoreObjectIdentifier, t: StoreObjectIdentifier)
    requires Valid(e) && s != t
    ensures var (e1, r1) := GetOrCreate(e, s);
            var (e2, r2) := GetOrCreate(e1, t);
            && r1 != r2
            && Find(e2, s) == Some(r1)
            && Find(e2, t) == Some(r2)
  {
  }

  /** Every record the registry hands out belongs to `e`, so its read-only
      flag is defined and is `e`'s; setting `e`'s flag therefore makes every
      record read-only at once, with no change to the map. */
  lemma ReadOnlyMirrorsOwner(e: EntityType, s: StoreObjectIdentifier, frozen: bool)
    requires Valid(e) && Find(e, s).Some?
    ensures Find(e, s).value.entityType == e.id
    ensures IsReadOnly(Find(e, s).value, e) == e.readOnly
    ensures IsReadOnly(Find(e.(readOnly := frozen), s).value, e.(readOnly := frozen)) == frozen
  {
  }

  /** `GetOrCreate` leaves the owner's flag alone, so the record it returns
      reports the owner's read-only flag. */
  lemma GetOrCreateRecordReadOnly(e: EntityType, s: StoreObjectIdentifier)
    requires Valid(e)
    ensures GetOrCreate(e, s).1.entityType == e.id
    ensures IsReadOnly(GetOrCreate(e, s).1, GetOrCreate(e, s).0) == e.readOnly
  {
  }

  /** A table named "A" and one named "B" (code units 0x41 and 0x42). */
  const TableA := StoreObjectIdentifier([0x41], None, Table)
  const TableB := StoreObjectIdentifier([0x42], None, Table)

  /** Requesting "B" before "A" on an entity type without overrides still
      enumerates "A" first: the only ordered enumeration is [A, B]. */
  lemma EnumerationIgnoresInsertionOrder(e: EntityType, ks: seq<StoreObjectIdentifier>)
    requires e.overrides.None?
    requires IsOrderedEnumeration(Entries(GetOrCreate(GetOrCreate(e, TableB).0, TableA).0).Keys, ks)
    ensures ks == [TableA, TableB]
  {
    var keys := Entries(GetOrCreate(GetOrCreate(e, TableB).0, TableA).0).Keys;
    assert keys == {TableA, TableB};
    assert IsOrderedEnumeration(keys, [TableA, TableB]);
    OrderedEnumerationUnique(keys, ks, [TableA, TableB]);
  }

  /** What `Get` returns after "B" and then "A" were requested on an entity
      type without overrides: the record for "A" first, then the one for "B".
      `Get`'s ghost `keys` is an ordered enumeration, which by
      `EnumerationIgnoresInsertionOrder` can only be [A, B]. */
  method GetAfterRequestingBThenA(e: EntityType) returns (r: Option<seq<Overrides>>)
    requires e.overrides.None?
    ensures r == Some([Overrides(e.id, TableA), Overrides(e.id, TableB)])
  {
    var e1 := GetOrCreate(GetOrCreate(e, TableB).0, TableA).0;
    assert Valid(e1) by {
      GetOrCreatePreservesValid(e, TableB);
      GetOrCreatePreservesValid(GetOrCreate(e, TableB).0, TableA);
    }
    ghost var keys;
    r, keys := Get(e1);
    EnumerationIgnoresInsertionOrder(e, keys);
    assert Entries(e1).Keys == {TableA, TableB};
    assert e1.id == e.id && |r.value| == 2;
    assert r.value[0] == Find(e1, TableA).value == Overrides(e.id, TableA);
    assert r.value[1] == Find(e1, TableB).value == Overrides(e.id, TableB);
    assert r.value == [Overrides(e.id, TableA), Overrides(e.id, TableB)];
  }

}
