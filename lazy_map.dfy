/**
 * AbstractLazyMap: a map decorator that starts out backed by the shared,
 * immutable empty map and creates its real backing map only when a write
 * (put, putAll) or getLazilyCreatedMap needs it. Every other operation
 * delegates to whichever map is current.
 */
module LazyMaps {
  import opened Java

  /** get's answer on a map: the bound value, or null when the key is absent. */
  function Lookup<K, V>(m: map<K, V>, k: K): (r: Option<V>)
    ensures r.Some? <==> k in m
    ensures r.Some? ==> r.value == m[k]
  {
    if k in m then Some(m[k]) else None
  }

  /** The mutable map that createMap() returns (a java.util.HashMap and its kin). */
  class BackingMap<K(==), V> {
    var contents: map<K, V>

    constructor ()
      ensures contents == map[]
    {
      contents := map[];
    }

    method Put(k: K, v: V) returns (previous: Option<V>)
      modifies this
      ensures contents == old(contents)[k := v]
      ensures previous == Lookup(old(contents), k)
    {
      previous := Lookup(contents, k);
      contents := contents[k := v];
    }

    method Remove(k: K) returns (previous: Option<V>)
      modifies this
      ensures contents == old(contents) - {k}
      ensures previous == Lookup(old(contents), k)
    {
      previous := Lookup(contents, k);
      contents := contents - {k};
    }

    method PutAll(m: map<K, V>)
      modifies this
      ensures contents == old(contents) + m
    {
      contents := contents + m;
    }

    method Clear()
      modifies this
      ensures contents == map[]
    {
      contents := map[];
    }
  }

  class LazyMap<K(==), V(==)> {
    /** The backing map once created; `null` while it is still the shared empty map. */
    var backing: BackingMap?<K, V>

    /** Whether the backing map has been created. */
    predicate IsCreated()
      reads this
    {
      backing != null
    }

    /** The contents seen through the decorator: those of the current backing map. */
    function Contents(): map<K, V>
      reads this, backing
    {
      if backing == null then map[] else backing.contents
    }

    /** A new lazy map: uncreated, reading as empty. */
    constructor ()
      ensures !IsCreated() && Contents() == map[]
    {
      backing := null;
    }

    /** size. */
    method Size() returns (n: nat)
      ensures n == |Contents()|
    {
      n := |Contents()|;
    }

    /** isEmpty. */
    method IsEmpty() returns (empty: bool)
      ensures empty <==> Contents() == map[]
    {
      empty := |Contents()| == 0;
    }

    /** containsKey. */
    method ContainsKey(k: K) returns (found: bool)
      ensures found <==> k in Contents()
    {
      found := k in Contents();
    }

    /** containsValue. */
    method ContainsValue(v: V) returns (found: bool)
      ensures found <==> exists k :: k in Contents() && Contents()[k] == v
    {
      found := v in Contents().Values;
    }

    /** get: the bound value, or null. */
    method Get(k: K) returns (r: Option<V>)
      ensures r.Some? <==> k in Contents()
      ensures r.Some? ==> r.value == Contents()[k]
    {
      r := Lookup(Contents(), k);
    }

    /** equals: the contents equal the other map's. */
    method Equals(other: map<K, V>) returns (equal: bool)
      ensures equal <==> Contents() == other
    {
      equal := Contents() == other;
    }

    /**
     * getLazyMap: the backing map, created now if it is still the shared empty
     * map; once created it is always the same map.
     */
    method GetLazyMap() returns (m: BackingMap<K, V>)
      modifies this
      ensures m == backing
      ensures old(IsCreated()) ==> m == old(backing)
      ensures !old(IsCreated()) ==> fresh(m) && m.contents == map[]
      ensures Contents() == old(Contents())
    {
      if backing == null {
        backing := new BackingMap();
      }
      m := backing;
    }

    /** getLazilyCreatedMap: getLazyMap, made public. */
    method GetLazilyCreatedMap() returns (m: BackingMap<K, V>)
      modifies this
      ensures m == backing
      ensures old(IsCreated()) ==> m == old(backing)
      ensures !old(IsCreated()) ==> fresh(m) && m.contents == map[]
      ensures Contents() == old(Contents())
    {
      m := GetLazyMap();
    }

    /** put: creates the backing map if needed, binds k to v and returns the previous binding. */
    method Put(k: K, v: V) returns (previous: Option<V>)
      modifies this, backing
      ensures IsCreated()
      ensures old(IsCreated()) ==> backing == old(backing)
      ensures !old(IsCreated()) ==> fresh(backing)
      ensures Contents() == old(Contents())[k := v]
      ensures previous == Lookup(old(Contents()), k)
    {
      var m := GetLazyMap();
      previous := m.Put(k, v);
    }

    /** putAll: creates the backing map if needed; the other map's bindings override. */
    method PutAll(other: map<K, V>)
      modifies this, backing
      ensures IsCreated()
      ensures old(IsCreated()) ==> backing == old(backing)
      ensures !old(IsCreated()) ==> fresh(backing)
      ensures Contents() == old(Contents()) + other
    {
      var m := GetLazyMap();
      m.PutAll(other);
    }

    /**
     * remove: delegates to the current map, so on an uncreated map it returns
     * null and creates nothing.
     */
    method Remove(k: K) returns (previous: Option<V>)
      modifies backing
      ensures backing == old(backing)
      ensures Contents() == old(Contents()) - {k}
      ensures previous == Lookup(old(Contents()), k)
    {
      if backing == null {
        previous := None;
      } else {
        previous := backing.Remove(k);
      }
    }

    /** clear: empties the current map; a created map stays created. */
    method Clear()
      modifies backing
      ensures backing == old(backing)
      ensures Contents() == map[]
    {
      if backing != null {
        backing.Clear();
      }
    }
  }

  // ---------------------------------------------------------------------------
  // The lazy life cycle, as callers see it

  /** Every read of a new lazy map sees an empty map, and none of them creates it. */
  method FreshMapReadsEmpty<K(==), V(==)>(k: K, v: V)
    returns (size: nat, empty: bool, hasKey: bool, hasValue: bool, got: Option<V>, equalsEmpty: bool, created: bool)
    ensures size == 0 && empty && !hasKey && !hasValue && got == None && equalsEmpty && !created
  {
    var lazy := new LazyMap<K, V>();
    size := lazy.Size();
    empty := lazy.IsEmpty();
    hasKey := lazy.ContainsKey(k);
    hasValue := lazy.ContainsValue(v);
    got := lazy.Get(k);
    equalsEmpty := lazy.Equals(map[]);
    created := lazy.IsCreated();
  }

  /**
   * The first put returns null and makes the binding visible; the map no
   * longer equals the empty map.
   */
  method PutThenRead<K(==), V(==)>(k: K, v: V)
    returns (previous: Option<V>, got: Option<V>, hasKey: bool, hasValue: bool, size: nat, equalsEmpty: bool)
    ensures previous == None && got == Some(v) && hasKey && hasValue && size == 1 && !equalsEmpty
  {
    var lazy := new LazyMap<K, V>();
    previous := lazy.Put(k, v);
    got := lazy.Get(k);
    hasKey := lazy.ContainsKey(k);
    hasValue := lazy.ContainsValue(v);
    size := lazy.Size();
    assert lazy.Contents() == map[k := v];
    equalsEmpty := lazy.Equals(map[]);
  }

  /**
   * remove on a new map returns null without creating it; after a put it
   * returns the stored value and the key is gone, the map staying created.
   */
  method RemoveBeforeAndAfterPut<K(==), V(==)>(k: K, v: V)
    returns (before: Option<V>, createdByRemove: bool, after: Option<V>, hasKey: bool, created: bool)
    ensures before == None && !createdByRemove
    ensures after == Some(v) && !hasKey && created
  {
    var lazy := new LazyMap<K, V>();
    before := lazy.Remove(k);
    createdByRemove := lazy.IsCreated();
    var _ := lazy.Put(k, v);
    after := lazy.Remove(k);
    hasKey := lazy.ContainsKey(k);
    created := lazy.IsCreated();
  }

  /** clear empties the contents of a created map without reverting it to uncreated. */
  method ClearKeepsCreated<K(==), V(==)>(k: K, v: V) returns (empty: bool, created: bool)
    ensures empty && created
  {
    var lazy := new LazyMap<K, V>();
    var _ := lazy.Put(k, v);
    lazy.Clear();
    empty := lazy.IsEmpty();
    created := lazy.IsCreated();
  }

  /** getLazilyCreatedMap is idempotent: a second call returns the map the first one created or found. */
  method GetLazilyCreatedMapTwice<K(==), V(==)>(lazy: LazyMap<K, V>) returns (first: BackingMap<K, V>, second: BackingMap<K, V>)
    modifies lazy
    ensures first == second == lazy.backing
    ensures old(lazy.IsCreated()) ==> first == old(lazy.backing)
    ensures lazy.Contents() == old(lazy.Contents())
  {
    first := lazy.GetLazilyCreatedMap();
    second := lazy.GetLazilyCreatedMap();
  }
}
