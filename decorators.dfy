/**
 * The memoising cache of src/primitive_db/decorators.py: `create_cacher`
 * returns `cache_result`, a closure over a dictionary from key to loaded
 * value, together with `cache_result.clear`. A `Cacher` object is that
 * dictionary and its two operations; the loader is a function argument
 * whose call either returns a value or raises.
 */
module Decorators {

  /** What one call of a loader does: return a value, or raise. */
  datatype Load<V> = Returned(value: V) | Raised

  class Cacher<K(==), V> {
    /** The dictionary the closures share. */
    var cache: map<K, V>
    /** How many times a loader has been called. */
    ghost var loads: nat

    /** `create_cacher`: every cacher starts with its own empty dictionary. */
    constructor ()
      ensures cache == map[] && loads == 0
    {
      cache := map[];
      loads := 0;
    }

    /** `cache_result(key, value_func)`: a key already in the dictionary,
        whatever its stored value, is a hit and is answered without calling
        the loader; otherwise the loader is called once. A returned value is
        stored under the key; a raised exception passes to the caller and
        nothing is stored, so the key still misses. No other key's entry
        changes. */
    method CacheResult(key: K, load: () -> Load<V>) returns (result: Load<V>)
      modifies this
      ensures key in old(cache) ==>
                result == Returned(old(cache)[key]) && cache == old(cache) && loads == old(loads)
      ensures key !in old(cache) ==> result == load() && loads == old(loads) + 1
      ensures key !in old(cache) && load().Returned? ==> cache == old(cache)[key := load().value]
      ensures key !in old(cache) && load().Raised? ==> cache == old(cache)
    {
      if key in cache {
        return Returned(cache[key]);
      }
      result := load();
      loads := loads + 1;
      if result.Returned? {
        cache := cache[key := result.value];
      }
    }

    /** `cache_result.clear()`: the dictionary is emptied. */
    method Clear()
      modifies this
      ensures cache == map[] && loads == old(loads)
    {
      cache := map[];
    }
  }

  /** Two lookups of one key. When the first loader returned, the second
      lookup is answered from the cache: it gives what the first loader gave
      and does not call the second loader. When the first loader raised,
      nothing was stored, so the second lookup calls the second loader. */
  method SecondLookup<K(==), V>(key: K, first: () -> Load<V>, second: () -> Load<V>)
    returns (a: Load<V>, b: Load<V>, ghost loads: nat)
    ensures a == first()
    ensures first().Returned? ==> b == first() && loads == 1
    ensures first().Raised? ==> b == second() && loads == 2
  {
    var c := new Cacher<K, V>();
    a := c.CacheResult(key, first);
    b := c.CacheResult(key, second);
    loads := c.loads;
  }

  /** After `clear` every key misses again, so the next lookup loads anew. */
  method ClearForcesReload<K(==), V>(key: K, first: () -> Load<V>, second: () -> Load<V>)
    returns (a: Load<V>, b: Load<V>, ghost loads: nat)
    ensures a == first() && b == second()
    ensures loads == 2
  {
    var c := new Cacher<K, V>();
    a := c.CacheResult(key, first);
    c.Clear();
    b := c.CacheResult(key, second);
    loads := c.loads;
  }

  /** Lookups of other keys leave an entry in place, whether their loaders
      return or raise. */
  method OtherKeysKept<K(==), V>(key: K, other: K, first: () -> Load<V>, second: () -> Load<V>,
                                 third: () -> Load<V>)
    returns (a: Load<V>, b: Load<V>)
    requires key != other
    ensures a == first()
    ensures first().Returned? ==> b == first()
  {
    var c := new Cacher<K, V>();
    a := c.CacheResult(key, first);
    var _ := c.CacheResult(other, second);
    b := c.CacheResult(key, third);
  }

  /** Two cachers do not share their dictionaries. */
  method CachersAreIndependent<K(==), V>(key: K, first: () -> Load<V>, second: () -> Load<V>)
    returns (a: Load<V>, b: Load<V>)
    ensures a == first() && b == second()
  {
    var c := new Cacher<K, V>();
    var d := new Cacher<K, V>();
    a := c.CacheResult(key, first);
    b := d.CacheResult(key, second);
  }
}
