/**
 * The in-memory link cache of server/src/cache.rs: short code -> destination
 * URL. The concurrent map behind it is modelled as one `map` that each
 * operation reads or replaces atomically.
 */
module Cache {
  import opened Wrappers

  class LinkCache {
    /** The mapping held by the cache. */
    var inner: map<string, string>

    /** `LinkCache::new`: an empty cache. */
    constructor ()
      ensures inner == map[]
    {
      inner := map[];
    }

    /**
     * Inserts or overwrites the mapping for `shortCode`; every other key keeps
     * its value, and the size grows by one exactly when the key is new.
     */
    method Set(shortCode: string, originalUrl: string)
      modifies this
      ensures inner == old(inner)[shortCode := originalUrl]
      ensures shortCode in inner && inner[shortCode] == originalUrl
      ensures forall k :: k != shortCode ==> (k in inner <==> k in old(inner))
      ensures forall k :: k != shortCode && k in inner ==> inner[k] == old(inner)[k]
      ensures |inner| == if shortCode in old(inner) then old(|inner|) else old(|inner|) + 1
    {
      inner := inner[shortCode := originalUrl];
    }

    /** The URL cached for `shortCode`, if any; the cache itself is left as it is. */
    method Get(shortCode: string) returns (r: Option<string>)
      ensures r.Some? <==> shortCode in inner
      ensures r.Some? ==> r.value == inner[shortCode]
    {
      if shortCode in inner {
        r := Some(inner[shortCode]);
      } else {
        r := None;
      }
    }

    /**
     * Deletes the mapping for `shortCode`; nothing happens when there is none,
     * and every other key keeps its value.
     */
    method Remove(shortCode: string)
      modifies this
      ensures inner == old(inner) - {shortCode}
      ensures shortCode !in inner
      ensures shortCode !in old(inner) ==> inner == old(inner)
      ensures forall k :: k != shortCode ==> (k in inner <==> k in old(inner))
      ensures forall k :: k in inner ==> inner[k] == old(inner)[k]
      ensures |inner| == if shortCode in old(inner) then old(|inner|) - 1 else old(|inner|)
    {
      inner := inner - {shortCode};
    }

    /** Number of cached entries. */
    method Len() returns (n: nat)
      ensures n == |inner|
    {
      n := |inner|;
    }

    /** True exactly when there is no cached entry, that is when `Len` is 0. */
    method IsEmpty() returns (b: bool)
      ensures b <==> |inner| == 0
      ensures b <==> inner == map[]
    {
      b := |inner| == 0;
    }
  }
}
