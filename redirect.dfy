/**
 * The redirect path of server/src/handlers/redirect.rs: resolving a short code
 * through the link cache with database fall-back and back-fill, extracting the
 * request metadata, and the background click pipeline (re-resolve, geo, write).
 *
 * The detached task is modelled as running to completion after the response
 * is decided; the database, the User-Agent parser and the network are
 * parameters.
 */
module Redirect {
  import opened Wrappers
  import opened Strings
  import opened Models
  import Cache
  import Ip
  import Geo

  // ---------------------------------------------------------------------------
  // 1. Resolving the URL

  /** What resolving a code gives the handler. */
  datatype Resolution = Destination(url: string) | NotFound | InternalError

  /**
   * The cache-or-store lookup of `redirect`. `storeQueries` counts the calls
   * made to `db::get_link_by_code`: none on a cache hit, one on a miss. A link
   * found in the store is back-filled into the cache before its URL is
   * returned; a missing link or a store error leaves the cache as it was.
   */
  method ResolveUrl(cache: Cache.LinkCache, code: string, getLinkByCode: CodeLookup)
    returns (r: Resolution, storeQueries: nat)
    modifies cache
    ensures code in old(cache.inner) ==>
      r == Destination(old(cache.inner)[code]) && storeQueries == 0 && cache.inner == old(cache.inner)
    ensures code !in old(cache.inner) ==> storeQueries == 1
    ensures code !in old(cache.inner) && getLinkByCode(code).Found? && getLinkByCode(code).value.Some? ==>
      var link := getLinkByCode(code).value.value;
      r == Destination(link.originalUrl) && cache.inner == old(cache.inner)[link.shortCode := link.originalUrl]
    ensures code !in old(cache.inner) && getLinkByCode(code) == Found(None) ==>
      r == NotFound && cache.inner == old(cache.inner)
    ensures code !in old(cache.inner) && getLinkByCode(code).DbError? ==>
      r == InternalError && cache.inner == old(cache.inner)
    ensures SelectsActiveByCode(getLinkByCode) && r.Destination? ==>
      code in cache.inner && cache.inner[code] == r.url
  {
    var cached := cache.Get(code);
    match cached {
      case Some(url) =>
        return Destination(url), 0;
      case None =>
        storeQueries := 1;
        match getLinkByCode(code) {
          case Found(Some(link)) =>
            cache.Set(link.shortCode, link.originalUrl);
            r := Destination(link.originalUrl);
          case Found(None) =>
            r := NotFound;
          case DbError =>
            r := InternalError;
        }
    }
  }

  // ---------------------------------------------------------------------------
  // 2. Request metadata

  /**
   * The headers the handler reads, each already passed through
   * `to_str().ok()`: a header that is absent or not visible ASCII is `None`.
   */
  datatype Headers = Headers(
    forwardedFor: Option<string>,
    realIp: Option<string>,
    userAgent: Option<string>,
    referer: Option<string>)

  /** The trimmed first comma-separated entry of an X-Forwarded-For value. */
  function FirstForwarded(xff: string): (r: string)
    ensures ',' !in r
    ensures r == [] || (!IsSpace(r[0]) && !IsSpace(r[|r| - 1]))
  {
    var first := FirstField(xff, ',');
    var r := Trim(first);
    TrimKeepsAbsent(first, ',');
    r
  }

  /**
   * `extract_ip`: the trimmed first entry of X-Forwarded-For when that is not
   * empty; otherwise a non-empty X-Real-IP, untrimmed; otherwise the text of
   * the socket peer's address `peer`. It always produces an address.
   */
  function ExtractIp(headers: Headers, peer: string): (r: Option<string>)
    ensures r.Some?
    ensures headers.forwardedFor.Some? && FirstForwarded(headers.forwardedFor.value) != "" ==>
      r.value == FirstForwarded(headers.forwardedFor.value)
    ensures (headers.forwardedFor.None? || FirstForwarded(headers.forwardedFor.value) == "") &&
            headers.realIp.Some? && headers.realIp.value != "" ==>
      r.value == headers.realIp.value
    ensures (headers.forwardedFor.None? || FirstForwarded(headers.forwardedFor.value) == "") &&
            (headers.realIp.None? || headers.realIp.value == "") ==>
      r.value == peer
  {
    if headers.forwardedFor.Some? && FirstForwarded(headers.forwardedFor.value) != "" then
      Some(FirstForwarded(headers.forwardedFor.value))
    else if headers.realIp.Some? && headers.realIp.value != "" then
      headers.realIp
    else
      Some(peer)
  }

  /** The extracted address is empty only when the request falls back to an empty peer text. */
  lemma ExtractedIpNonEmpty(headers: Headers, peer: string)
    requires peer != ""
    ensures ExtractIp(headers, peer).value != ""
  {
  }

  /**
   * A client that connects directly over IPv4, set behind no proxy header, is
   * classified by its own address: `extract_ip` prints it and `is_private`
   * parses the print back.
   */
  lemma {:induction false} DirectV4ClientClassified(x: Ip.Ipv4, userAgent: Option<string>, referer: Option<string>, parseV6: Ip.Ipv6Parser)
    ensures var ip := ExtractIp(Headers(None, None, userAgent, referer), Ip.FormatV4(x)).value;
            Ip.IsPrivate(ip, parseV6) == Ip.PrivateV4(x)
  {
    Ip.FormattedV4Classified(x, parseV6);
  }

  /** The fields woothee's parser reports (`name`, `os`, `category`). */
  datatype WootheeResult = WootheeResult(name: string, os: string, category: string)

  /** The woothee User-Agent parser, which this model does not spell out. */
  type UaParser = string -> Option<WootheeResult>

  /** One field of the parser's report: kept verbatim unless it is "" or "UNKNOWN". */
  function KnownOrNone(field: string): (r: Option<string>)
    ensures r.None? <==> field == "" || field == "UNKNOWN"
    ensures r.Some? ==> r.value == field
  {
    if field == "" || field == "UNKNOWN" then None else Some(field)
  }

  /** Browser, OS and device category of a request. */
  datatype UaFields = UaFields(browser: Option<string>, os: Option<string>, deviceType: Option<string>)

  /** A field that is never stored as an empty or "UNKNOWN" string. */
  predicate Informative(o: Option<string>) {
    o.Some? ==> o.value != "" && o.value != "UNKNOWN"
  }

  /**
   * `parse_user_agent`: nothing for an absent or empty User-Agent or one the
   * parser rejects; otherwise each reported field, with "" and "UNKNOWN" turned
   * into `None`.
   */
  function ParseUserAgent(ua: Option<string>, parser: UaParser): (r: UaFields)
    ensures ua.None? || ua.value == "" ==> r == UaFields(None, None, None)
    ensures ua.Some? && ua.value != "" && parser(ua.value).None? ==> r == UaFields(None, None, None)
    ensures ua.Some? && ua.value != "" && parser(ua.value).Some? ==>
      var p := parser(ua.value).value;
      && (r.browser.Some? <==> p.name != "" && p.name != "UNKNOWN")
      && (r.os.Some? <==> p.os != "" && p.os != "UNKNOWN")
      && (r.deviceType.Some? <==> p.category != "" && p.category != "UNKNOWN")
      && (r.browser.Some? ==> r.browser.value == p.name)
      && (r.os.Some? ==> r.os.value == p.os)
      && (r.deviceType.Some? ==> r.deviceType.value == p.category)
    ensures Informative(r.browser) && Informative(r.os) && Informative(r.deviceType)
  {
    match ua
    case Some(s) =>
      if s == "" then UaFields(None, None, None)
      else
        (match parser(s)
         case Some(p) => UaFields(KnownOrNone(p.name), KnownOrNone(p.os), KnownOrNone(p.category))
         case None => UaFields(None, None, None))
    case None => UaFields(None, None, None)
  }

  // ---------------------------------------------------------------------------
  // 3. The click pipeline

  /** What the handler captures for the background task. */
  datatype ClickMeta = ClickMeta(ip: Option<string>, userAgent: Option<string>, referer: Option<string>, agent: UaFields)

  /** Country, region and city columns: all present with a geo result, all absent without. */
  datatype GeoColumns = GeoColumns(country: Option<string>, region: Option<string>, city: Option<string>)

  function ToColumns(g: Option<Geo.GeoInfo>): (c: GeoColumns)
    ensures g.None? <==> c == GeoColumns(None, None, None)
    ensures g.Some? ==> c == GeoColumns(Some(g.value.country), Some(g.value.region), Some(g.value.city))
  {
    match g
    case Some(info) => GeoColumns(Some(info.country), Some(info.region), Some(info.city))
    case None => GeoColumns(None, None, None)
  }

  /**
   * The body of the spawned task. It re-reads the link from the store (not the
   * cache) to learn its id and gives up when the link is gone or the read
   * fails; otherwise it geolocates the address (none when there is no address)
   * and submits exactly one click row built from the link id and the captured
   * metadata. The outcome of the write is discarded, so `click` is the row
   * submitted, whether or not the insert succeeds.
   */
  method RunClickPipeline(geoCache: Geo.GeoCache, code: string, meta: ClickMeta, getLinkByCode: CodeLookup,
                          parseV6: Ip.Ipv6Parser, fetch: Geo.Fetcher)
    returns (click: Option<NewClick>, storeQueries: nat, fetches: nat)
    modifies geoCache
    ensures storeQueries == 1
    ensures click.Some? <==> getLinkByCode(code).Found? && getLinkByCode(code).value.Some?
    ensures click.None? || meta.ip.None? ==> geoCache.inner == old(geoCache.inner) && fetches == 0
    ensures click.Some? && meta.ip.None? ==>
      click.value == NewClick(getLinkByCode(code).value.value.id, None, meta.userAgent, meta.referer,
                              meta.agent.browser, meta.agent.os, meta.agent.deviceType, None, None, None)
    ensures click.Some? && meta.ip.Some? ==>
      var step := Geo.LookupModel(old(geoCache.inner), meta.ip.value, parseV6, fetch);
      var geo := ToColumns(step.result);
      && click.value == NewClick(getLinkByCode(code).value.value.id, meta.ip, meta.userAgent, meta.referer,
                                 meta.agent.browser, meta.agent.os, meta.agent.deviceType,
                                 geo.country, geo.region, geo.city)
      && geoCache.inner == step.cache && fetches == |step.fetched|
  {
    storeQueries := 1;
    fetches := 0;
    var link: Link;
    match getLinkByCode(code) {
      case Found(Some(l)) => link := l;
      case Found(None) => return None, storeQueries, fetches;
      case DbError => return None, storeQueries, fetches;
    }
    var geo := GeoColumns(None, None, None);
    if meta.ip.Some? {
      var info: Option<Geo.GeoInfo>;
      info, fetches := Geo.Lookup(geoCache, meta.ip.value, parseV6, fetch);
      geo := ToColumns(info);
    }
    click := Some(NewClick(link.id, meta.ip, meta.userAgent, meta.referer,
                           meta.agent.browser, meta.agent.os, meta.agent.deviceType,
                           geo.country, geo.region, geo.city));
  }

  // ---------------------------------------------------------------------------
  // 4. The whole handler

  /**
   * The handler's response: a 303 See Other to the destination (what
   * `Redirect::to` produces), a 404 or a 500.
   */
  datatype Response = SeeOther303(location: string) | NotFound404 | InternalError500

  /** The metadata `redirect` captures before spawning the background job. */
  function CaptureMeta(headers: Headers, peer: string, parser: UaParser): (m: ClickMeta)
    ensures m.ip == ExtractIp(headers, peer) && m.ip.Some?
    ensures m.userAgent == headers.userAgent && m.referer == headers.referer
    ensures m.agent == ParseUserAgent(headers.userAgent, parser)
  {
    ClickMeta(ExtractIp(headers, peer), headers.userAgent, headers.referer, ParseUserAgent(headers.userAgent, parser))
  }

  /**
   * `redirect` (GET /:code). The response is decided by resolving the code;
   * only a resolved code spawns the click pipeline, which later re-reads the
   * store (`laterLookup`, the store as the background job finds it). A 404 or a 500 logs
   * nothing and leaves the geo cache alone.
   */
  method HandleRedirect(cache: Cache.LinkCache, geoCache: Geo.GeoCache, code: string, headers: Headers, peer: string,
                        getLinkByCode: CodeLookup, laterLookup: CodeLookup, parser: UaParser,
                        parseV6: Ip.Ipv6Parser, fetch: Geo.Fetcher)
    returns (response: Response, click: Option<NewClick>)
    modifies cache, geoCache
    ensures code in old(cache.inner) ==> response == SeeOther303(old(cache.inner)[code])
    ensures code !in old(cache.inner) ==> match getLinkByCode(code)
      case Found(Some(link)) => response == SeeOther303(link.originalUrl)
      case Found(None) => response == NotFound404
      case DbError => response == InternalError500
    ensures !response.SeeOther303? ==> click.None? && geoCache.inner == old(geoCache.inner)
    ensures click.Some? ==> response.SeeOther303? && laterLookup(code).Found? && laterLookup(code).value.Some?
    ensures click.Some? ==> click.value.linkId == laterLookup(code).value.value.id
    ensures click.Some? ==> click.value.ipAddress == ExtractIp(headers, peer)
    ensures click.Some? ==> click.value.userAgent == headers.userAgent && click.value.referer == headers.referer
    ensures response.SeeOther303? && laterLookup(code).Found? && laterLookup(code).value.Some? ==> click.Some?
    // the link cache: untouched on a hit or a failed read, back-filled from the store row on a miss
    ensures code in old(cache.inner) ==> cache.inner == old(cache.inner)
    ensures code !in old(cache.inner) ==> match getLinkByCode(code)
      case Found(Some(link)) => cache.inner == old(cache.inner)[link.shortCode := link.originalUrl]
      case Found(None) => cache.inner == old(cache.inner)
      case DbError => cache.inner == old(cache.inner)
    // a redirect whose background job finds no link logs nothing and geolocates nothing
    ensures click.None? ==> geoCache.inner == old(geoCache.inner)
    // the logged row's agent columns come from the User-Agent, its geo columns from one geo lookup
    ensures click.Some? ==>
      var agent := ParseUserAgent(headers.userAgent, parser);
      && click.value.browser == agent.browser && click.value.os == agent.os
      && click.value.deviceType == agent.deviceType
    ensures click.Some? ==>
      var step := Geo.LookupModel(old(geoCache.inner), ExtractIp(headers, peer).value, parseV6, fetch);
      var geo := ToColumns(step.result);
      && click.value.country == geo.country && click.value.region == geo.region && click.value.city == geo.city
      && geoCache.inner == step.cache
  {
    var resolution, storeQueries := ResolveUrl(cache, code, getLinkByCode);
    match resolution {
      case NotFound => return NotFound404, None;
      case InternalError => return InternalError500, None;
      case Destination(url) =>
        var meta := CaptureMeta(headers, peer, parser);
        var queries, fetches;
        click, queries, fetches := RunClickPipeline(geoCache, code, meta, laterLookup, parseV6, fetch);
        response := SeeOther303(url);
    }
  }
}
