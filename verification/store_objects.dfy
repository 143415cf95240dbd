/** The key of the override registry: the identifier of a table-like store
    object, and the ordering of such keys by name that the registry uses to
    enumerate its records deterministically. */
module StoreObjects {

  import opened Options
  import opened Ordinal

  /** The kind of store object an entity type can be mapped to. */
  datatype StoreObjectType = Table | View | Function

  /** A value-type key: equal exactly when name, schema and kind are equal. */
  datatype StoreObjectIdentifier = StoreObjectIdentifier(
    name: Utf16,
    schema: Option<Utf16>,
    storeObjectType: StoreObjectType)

  /** `a` sorts no later than `b` when keys are ordered by name alone. */
  predicate NameLe(a: StoreObjectIdentifier, b: StoreObjectIdentifier) {
    OrdinalLe(a.name, b.name)
  }

  predicate Distinct<T(==)>(xs: seq<T>) {
    forall i, j :: 0 <= i < j < |xs| ==> xs[i] != xs[j]
  }

  /** Non-decreasing by name; keys with equal names may come in any order. */
  predicate SortedByName(ks: seq<StoreObjectIdentifier>) {
    forall i, j :: 0 <= i < j < |ks| ==> NameLe(ks[i], ks[j])
  }

  /** `ks` lists every key of `keys` exactly once, ordered by name. */
  predicate IsOrderedEnumeration(keys: set<StoreObjectIdentifier>, ks: seq<StoreObjectIdentifier>) {
    && (forall i :: 0 <= i < |ks| ==> ks[i] in keys)
    && (forall k :: k in keys ==> k in ks)
    && Distinct(ks)
    && SortedByName(ks)
  }

  /** `k` sorts no later than any key of `keys`. */
  predicate IsLeastByName(k: StoreObjectIdentifier, keys: set<StoreObjectIdentifier>) {
    forall k' :: k' in keys ==> NameLe(k, k')
  }

  /** No two keys of `keys` share a name. */
  predicate NamesDistinct(keys: set<StoreObjectIdentifier>) {
    forall a, b :: a in keys && b in keys && a.name == b.name ==> a == b
  }

  /** Every non-empty finite set of keys has a key of least name. */
  lemma LeastByNameExists(keys: set<StoreObjectIdentifier>)
    requires keys != {}
    ensures exists k :: k in keys && IsLeastByName(k, keys)
    decreases |keys|
  {
    var x :| x in keys;
    OrdinalLeReflexive(x.name);
    if keys != {x} {
      var rest := keys - {x};
      LeastByNameExists(rest);
      var m :| m in rest && IsLeastByName(m, rest);
      if NameLe(x, m) {
        forall k' | k' in keys
          ensures NameLe(x, k')
        {
          if k' != x {
            assert k' in rest;
            OrdinalLeTransitive(x.name, m.name, k'.name);
          }
        }
      } else {
        OrdinalLeTotal(x.name, m.name);
        assert IsLeastByName(m, keys);
      }
    }
  }

  /** A sequence without repetitions is exactly as long as the set of its elements. */
  lemma {:induction false} DistinctLength<T>(xs: seq<T>)
    requires Distinct(xs)
    ensures |set x | x in xs| == |xs|
  {
    if |xs| > 0 {
      var tail := xs[1..];
      assert Distinct(tail) by {
        forall i, j | 0 <= i < j < |tail|
          ensures tail[i] != tail[j]
        {
          assert tail[i] == xs[i + 1] && tail[j] == xs[j + 1];
        }
      }
      DistinctLength(tail);
      assert xs[0] !in tail by {
        forall i | 0 <= i < |tail|
          ensures tail[i] != xs[0]
        {
          assert tail[i] == xs[i + 1];
        }
      }
      assert (set x | x in xs) == (set x | x in tail) + {xs[0]} by {
        assert xs == [xs[0]] + tail;
      }
    }
  }

  /** An ordered enumeration is a permutation of the key set: as many
      entries as there are keys. */
  lemma OrderedEnumerationLength(keys: set<StoreObjectIdentifier>, ks: seq<StoreObjectIdentifier>)
    requires IsOrderedEnumeration(keys, ks)
    ensures |ks| == |keys|
  {
    DistinctLength(ks);
    assert (set x | x in ks) == keys;
  }

  /** When no two keys share a name, the ordering by name leaves no choice:
      there is exactly one ordered enumeration. */
  lemma {:induction false} OrderedEnumerationUnique(
    keys: set<StoreObjectIdentifier>, ks1: seq<StoreObjectIdentifier>, ks2: seq<StoreObjectIdentifier>)
    requires NamesDistinct(keys)
    requires IsOrderedEnumeration(keys, ks1) && IsOrderedEnumeration(keys, ks2)
    ensures ks1 == ks2
    decreases |ks1|
  {
    if |ks1| == 0 {
      assert keys == {};
    } else {
      assert ks1[0] in keys;
      var a, b := ks1[0], ks2[0];
      assert NameLe(a, b) by {
        var j :| 0 <= j < |ks1| && ks1[j] == b;
        if j == 0 { OrdinalLeReflexive(a.name); }
      }
      assert NameLe(b, a) by {
        var j :| 0 <= j < |ks2| && ks2[j] == a;
        if j == 0 { OrdinalLeReflexive(b.name); }
      }
      OrdinalLeAntisymmetric(a.name, b.name);
      assert a == b;
      var rest := keys - {a};
      TailIsOrderedEnumeration(keys, ks1);
      TailIsOrderedEnumeration(keys, ks2);
      OrderedEnumerationUnique(rest, ks1[1..], ks2[1..]);
      assert ks1 == [a] + ks1[1..];
      assert ks2 == [b] + ks2[1..];
    }
  }

  /** Dropping the first entry of an ordered enumeration enumerates the
      remaining keys. */
  lemma TailIsOrderedEnumeration(keys: set<StoreObjectIdentifier>, ks: seq<StoreObjectIdentifier>)
    requires IsOrderedEnumeration(keys, ks) && |ks| > 0
    ensures IsOrderedEnumeration(keys - {ks[0]}, ks[1..])
  {
  }

  /** Orders a finite set of keys by name, by repeatedly taking a key of
      least name from those not yet listed. */
  method OrderedKeys(keys: set<StoreObjectIdentifier>) returns (ks: seq<StoreObjectIdentifier>)
    ensures IsOrderedEnumeration(keys, ks)
    ensures |ks| == |keys|
  {
    var rest := keys;
    ks := [];
    while rest != {}
      invariant rest <= keys
      invariant forall i :: 0 <= i < |ks| ==> ks[i] in keys && ks[i] !in rest
      invariant forall k :: k in keys ==> k in rest || k in ks
      invariant Distinct(ks)
      invariant SortedByName(ks)
      invariant forall i, k :: 0 <= i < |ks| && k in rest ==> NameLe(ks[i], k)
      decreases rest
    {
      LeastByNameExists(rest);
      var k :| k in rest && IsLeastByName(k, rest);
      ks := ks + [k];
      rest := rest - {k};
    }
    OrderedEnumerationLength(keys, ks);
  }

}
