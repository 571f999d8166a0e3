/**
 * The cache-aside layer the data-access code reads through. The cache
 * itself and its helper are defined outside the modelled files; this is
 * the contract the model relies on from them.
 */
module CacheAside {
  import opened Wrappers
  import opened Records

  /** The process-wide cache shared by every kind: string keys, values kept
      until they are deleted (no expiry). */
  class Cache {
    var entries: map<string, CacheVal>

    constructor ()
      ensures entries == map[]
    {
      entries := map[];
    }

    /** `SimpleFindDataWithCache(key, dest, loader)`. `loaded` is the outcome
        the loader would produce (`None` when its store read fails); the
        loader only reads the store, so passing its outcome in is the same as
        passing the closure. A hit returns the held value and ignores
        `loaded`; a miss returns `loaded` and keeps it only when it succeeded. */
    method FindWithCache(key: string, loaded: Option<CacheVal>) returns (r: Option<CacheVal>)
      modifies this
      ensures key in old(entries) ==> r == Some(old(entries)[key]) && entries == old(entries)
      ensures key !in old(entries) ==> r == loaded
      ensures key !in old(entries) && loaded.Some? ==> entries == old(entries)[key := loaded.value]
      ensures key !in old(entries) && loaded.None? ==> entries == old(entries)
    {
      if key in entries {
        r := Some(entries[key]);
      } else {
        r := loaded;
        if loaded.Some? {
          entries := entries[key := loaded.value];
        }
      }
    }

    /** `Cache.Delete`: drop one key, whether or not it is present. */
    method Delete(key: string)
      modifies this
      ensures entries == old(entries) - {key}
    {
      entries := entries - {key};
    }
  }
}
