/**
 * Geolocation enrichment of server/src/geo.rs: interpreting the reply of the
 * ip-api.com endpoint (`fetch_geo`) and the negative-caching `lookup`.
 *
 * The HTTP request itself (client set-up, the 3-second timeout, transport and
 * JSON errors) is the parameter `fetch`, which gives what one request for an
 * address produced. Because a lookup fetches an address at most once (lemma
 * `FetchesAreDistinct`), a fixed function loses nothing against a network
 * whose answers change over time.
 */
module Geo {
  import opened Wrappers
  import opened Ip

  /** `GeoInfo`: the three fields a click is enriched with. */
  datatype GeoInfo = GeoInfo(country: string, region: string, city: string)

  /** `IpApiResponse`: the decoded JSON body (`regionName` on the wire). */
  datatype IpApiResponse = IpApiResponse(
    status: string,
    country: Option<string>,
    regionName: Option<string>,
    city: Option<string>)

  /**
   * What one request produced: any of the failures that `fetch_geo` turns into
   * `None` with `.ok()?` (client build, send, timeout, JSON decoding), or a
   * decoded body.
   */
  datatype Fetched = FetchFailed | Received(body: IpApiResponse)

  type Fetcher = string -> Fetched

  /** `filter(|s| !s.is_empty()).unwrap_or_default()`. */
  function NonEmptyOrDefault(o: Option<string>): (r: string)
    ensures r == "" <==> o.None? || o.value == ""
    ensures r != "" ==> o == Some(r)
  {
    match o
    case Some(s) => if s != "" then s else ""
    case None => ""
  }

  /** A reply field that carries no data: missing or empty. */
  predicate Blank(o: Option<string>) {
    o.None? || o.value == ""
  }

  /**
   * The decision part of `fetch_geo`: a failed request or a status other than
   * "success" gives `None`; missing or empty fields become ""; a reply whose
   * three fields are all blank is a miss too.
   */
  function InterpretResponse(f: Fetched): (r: Option<GeoInfo>)
    ensures r.Some? <==>
      f.Received? && f.body.status == "success" &&
      !(Blank(f.body.country) && Blank(f.body.regionName) && Blank(f.body.city))
    ensures r.Some? ==>
      r.value == GeoInfo(NonEmptyOrDefault(f.body.country), NonEmptyOrDefault(f.body.regionName), NonEmptyOrDefault(f.body.city))
    ensures r.Some? ==> r.value.country != "" || r.value.region != "" || r.value.city != ""
  {
    match f
    case FetchFailed => None
    case Received(body) =>
      if body.status != "success" then None
      else
        var country := NonEmptyOrDefault(body.country);
        var region := NonEmptyOrDefault(body.regionName);
        var city := NonEmptyOrDefault(body.city);
        if country == "" && region == "" && city == "" then None
        else Some(GeoInfo(country, region, city))
  }

  // ---------------------------------------------------------------------------
  // The lookup, as a function of the cache contents

  /** The geo cache's map: an entry `None` records a lookup that found nothing. */
  type GeoMap = map<string, Option<GeoInfo>>

  /** The outcome of one `lookup`: its result, the cache afterwards and the addresses fetched. */
  datatype LookupStep = LookupStep(result: Option<GeoInfo>, cache: GeoMap, fetched: seq<string>)

  /**
   * `lookup` on cache contents `m`: a private address gives `None` and touches
   * nothing; a cached entry, positive or negative, is returned as it is; any
   * other address is fetched once and whatever came back (also `None`) is
   * stored under the address exactly as given.
   */
  function LookupModel(m: GeoMap, ip: string, parseV6: Ipv6Parser, fetch: Fetcher): (r: LookupStep)
    ensures IsPrivate(ip, parseV6) ==> r == LookupStep(None, m, [])
    ensures r.fetched != [] <==> !IsPrivate(ip, parseV6) && ip !in m
    ensures r.fetched == [] ==> r.cache == m
    ensures r.fetched != [] ==>
      r.fetched == [ip] && r.result == InterpretResponse(fetch(ip)) && r.cache == m[ip := r.result]
    ensures !IsPrivate(ip, parseV6) ==> ip in r.cache && r.cache[ip] == r.result
  {
    if IsPrivate(ip, parseV6) then LookupStep(None, m, [])
    else if ip in m then LookupStep(m[ip], m, [])
    else
      var r := InterpretResponse(fetch(ip));
      LookupStep(r, m[ip := r], [ip])
  }

  /** A private address is never fetched and leaves the cache alone. */
  lemma PrivateNeverFetched(m: GeoMap, ip: string, parseV6: Ipv6Parser, fetch: Fetcher)
    requires IsPrivate(ip, parseV6)
    ensures LookupModel(m, ip, parseV6, fetch) == LookupStep(None, m, [])
  {
  }

  /** A second lookup of an address makes no request and repeats the first answer, whatever the network would say now. */
  lemma RepeatLookupIsCached(m: GeoMap, ip: string, parseV6: Ipv6Parser, fetch: Fetcher, later: Fetcher)
    ensures var first := LookupModel(m, ip, parseV6, fetch);
            var second := LookupModel(first.cache, ip, parseV6, later);
            second.fetched == [] && second.result == first.result && second.cache == first.cache
  {
  }

  /** The outcome of looking up `ips` one after the other. */
  datatype Trace = Trace(results: seq<Option<GeoInfo>>, cache: GeoMap, fetched: seq<string>)

  function LookupAll(m: GeoMap, ips: seq<string>, parseV6: Ipv6Parser, fetch: Fetcher): (t: Trace)
    ensures |t.results| == |ips|
  {
    if ips == [] then Trace([], m, [])
    else
      var before := LookupAll(m, ips[..|ips| - 1], parseV6, fetch);
      var step := LookupModel(before.cache, ips[|ips| - 1], parseV6, fetch);
      Trace(before.results + [step.result], step.cache, before.fetched + step.fetched)
  }

  /**
   * Over any run of lookups, only public addresses that were not cached at the
   * start are fetched, and the cache ends up holding exactly the addresses it
   * held before plus the fetched ones.
   */
  lemma {:induction false} FetchedAreNewPublic(m: GeoMap, ips: seq<string>, parseV6: Ipv6Parser, fetch: Fetcher)
    ensures var t := LookupAll(m, ips, parseV6, fetch);
            && (forall x :: x in t.fetched ==> x in ips && !IsPrivate(x, parseV6) && x !in m)
            && (forall k :: k in t.cache <==> k in m || k in t.fetched)
  {
    if ips != [] {
      var front := ips[..|ips| - 1];
      FetchedAreNewPublic(m, front, parseV6, fetch);
      var before := LookupAll(m, front, parseV6, fetch);
      var step := LookupModel(before.cache, ips[|ips| - 1], parseV6, fetch);
      assert LookupAll(m, ips, parseV6, fetch).fetched == before.fetched + step.fetched;
      assert forall x :: x in front ==> x in ips;
    }
  }

  /** Over any run of lookups, no address is fetched twice. */
  lemma {:induction false} FetchesAreDistinct(m: GeoMap, ips: seq<string>, parseV6: Ipv6Parser, fetch: Fetcher)
    ensures var t := LookupAll(m, ips, parseV6, fetch);
            forall i, j :: 0 <= i < j < |t.fetched| ==> t.fetched[i] != t.fetched[j]
  {
    if ips != [] {
      var front := ips[..|ips| - 1];
      FetchesAreDistinct(m, front, parseV6, fetch);
      FetchedAreNewPublic(m, front, parseV6, fetch);
      var before := LookupAll(m, front, parseV6, fetch);
      var step := LookupModel(before.cache, ips[|ips| - 1], parseV6, fetch);
      var t := LookupAll(m, ips, parseV6, fetch);
      assert t.fetched == before.fetched + step.fetched;
      if step.fetched != [] {
        assert ips[|ips| - 1] !in before.fetched;
      }
    }
  }

  // ---------------------------------------------------------------------------
  // The cache object and the `lookup` operation

  /** `GeoCache`: address -> result of the one lookup made for it. */
  class GeoCache {
    var inner: GeoMap

    /** `GeoCache::new`: nothing looked up yet. */
    constructor ()
      ensures inner == map[]
    {
      inner := map[];
    }
  }

  /**
   * `lookup(ip, cache)`. `fetches` counts the requests sent to the geolocation
   * service: none for a private address or a cached one, exactly one otherwise.
   */
  method Lookup(cache: GeoCache, ip: string, parseV6: Ipv6Parser, fetch: Fetcher)
    returns (r: Option<GeoInfo>, fetches: nat)
    modifies cache
    ensures var step := LookupModel(old(cache.inner), ip, parseV6, fetch);
            r == step.result && cache.inner == step.cache && fetches == |step.fetched|
    ensures IsPrivate(ip, parseV6) ==> r.None? && fetches == 0 && cache.inner == old(cache.inner)
    ensures !IsPrivate(ip, parseV6) && ip in old(cache.inner) ==>
      r == old(cache.inner)[ip] && fetches == 0 && cache.inner == old(cache.inner)
    ensures !IsPrivate(ip, parseV6) && ip !in old(cache.inner) ==>
      r == InterpretResponse(fetch(ip)) && fetches == 1 && cache.inner == old(cache.inner)[ip := r]
  {
    if IsPrivate(ip, parseV6) {
      return None, 0;
    }
    if ip in cache.inner {
      return cache.inner[ip], 0;
    }
    r := InterpretResponse(fetch(ip));
    fetches := 1;
    cache.inner := cache.inner[ip := r];
  }
}
