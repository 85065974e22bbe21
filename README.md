# linkly, modelled in Dafny

linkly is a small link-shortening server. An administrator signs in with a
session cookie and creates short codes for long URLs. `GET /:code` answers
with a 303 See Other redirect to the destination (axum's `Redirect::to`). In the background it records one
click row, enriched with the browser, OS and device parsed from the
User-Agent and with a country, region and city looked up from the client
address. Analytics pages break the clicks down by value.

This project models the in-process core of that server, proves what its
code and doc comments promise, and leaves the database, the network and the
web framework as parameters:

| module | models |
|---|---|
| `Cache` (cache.dfy) | `LinkCache`, short code -> URL, as a class over a `map` |
| `Auth` (auth.dfy) | `SessionStore`: token -> creation instant, a TTL in seconds, and the `AuthUser` gate |
| `Ip` (ip.dfy) | `is_private` from geo.rs, plus the part of Rust's `std::net` it depends on: dotted-quad parsing and printing (IPv6 parsing is a parameter) |
| `Geo` (geo.dfy) | how `fetch_geo` reads the ip-api.com reply, and the negative-caching `lookup` over `GeoCache` |
| `Redirect` (redirect.dfy) | the `redirect` handler: cache-or-store resolution with back-fill, `extract_ip`, `parse_user_agent` and the click pipeline |
| `Admin` (admin.dfy) | `create_link` validation and normalisation, `generate_unique_code`, `random_code`, the cache updates of `create_link` and `delete_link`, `count_field` and `with_pct` |
| `Db` (db.dfy) | `warm_cache` |
| `Models`, `Strings`, `Wrappers` | the row records, a database reply (`DbResult`), Rust's `trim` and `split`, and `Option`/`Result` |

Calls into the outside world become parameters:
- `get_link_by_code` is a function from code to `DbResult<Option<Link>>`; `get_link_by_id`, `delete_link` and `create_link` are functions of their own arguments.
- An ip-api.com request is a `Fetcher`, from address to a failure or a decoded body.
- woothee is a `UaParser`, and Rust's IPv6 text parser is an `Ipv6Parser`.
- The UUID of a new session is the `token` argument.
- The monotonic clock is `now`, in nanoseconds.
- The generator's `gen_range(0..62)` results are a stream of draws.

Methods return counters where the source promises a number of calls:
- `storeQueries` counts calls to `get_link_by_code`.
- `fetches` counts geolocation requests.
- `lookups` counts store queries while a code is being generated.
- `deletes` counts delete statements.

Over any run of lookups, no address is fetched twice (`Geo.FetchesAreDistinct`). A fixed function from address to reply therefore loses nothing against a network whose answers change over time.

## Model

| member | source | states |
|---|---|---|
| Cache.LinkCache.constructor | server/src/cache.rs:16-20 | a new cache is empty |
| Cache.LinkCache.Set | server/src/cache.rs:23-25 | the code now maps to the URL; no other key is added, removed or changed; the size grows by one exactly when the code was new |
| Cache.LinkCache.Get | server/src/cache.rs:28-30 | `Some` exactly when the code is cached, carrying the cached URL; the cache is not modified |
| Cache.LinkCache.Remove | server/src/cache.rs:33-35 | the code is no longer cached; an absent code changes nothing; other keys keep their values; the size drops by one exactly when the code was present |
| Cache.LinkCache.Len | server/src/cache.rs:38-40 | the number of cached entries |
| Cache.LinkCache.IsEmpty | server/src/cache.rs:42-44 | true exactly when the size is 0, that is when the map is empty |
| Auth.Elapsed | server/src/auth.rs:39 | the time since the creation instant, or zero when the clock reads earlier (saturating, like `Instant::elapsed`) |
| Auth.Live | server/src/auth.rs:49 | a session is live exactly when the clock is before the creation instant plus the duration; with a clock before the creation instant it is live exactly when the duration is not zero |
| Auth.LiveAtCreation | server/src/auth.rs:39-40 | a session is valid at the instant it is created exactly when the duration is not zero, so with 0 hours no token is ever valid |
| Auth.ExpiryIsFinal | server/src/auth.rs:49 | once a session's age has reached the duration it stays expired at every later instant |
| Auth.SessionStore.constructor | server/src/auth.rs:27-32 | the store is empty and its duration is `hours * 3600` seconds |
| Auth.SessionStore.Create | server/src/auth.rs:35-42 | returns the token; keeps exactly the old sessions whose age at `now` is below the duration, with their instants unchanged, and drops the rest; then maps the token to `now`; every remaining session is live or is the new one; with a non-zero duration the new session is live |
| Auth.SessionStore.IsValid | server/src/auth.rs:45-51 | true exactly when the token is present and its age is strictly below the duration; an absent token is invalid; reads only |
| Auth.SessionStore.Remove | server/src/auth.rs:54-57 | the token is gone and every other session is kept; removing an absent token changes nothing |
| Auth.AuthenticateRequest | server/src/auth.rs:76-91 | authenticated exactly when a `session_id` cookie is present and the store accepts its value at `now`; otherwise a redirect to `/admin/login` |
| Db.WarmCache | server/src/db.rs:10-25 | a failed query is reported and leaves the cache alone; otherwise the cache is the old one with every active row set on it, in order |
| Db.Warmed | server/src/db.rs:19-21 | keeps every key of the starting map; when the last row is active, its code maps to its URL, so a later row overrides an earlier one |
| Db.WarmedKeys | server/src/db.rs:11-21 | warming adds exactly the codes of the active rows to the keys |
| Db.WarmedKeepsOthers | server/src/db.rs:19-21 | a key that no active row names keeps its old value |
| Db.WarmedMapsActive | server/src/db.rs:19-21 | when active codes are distinct, each active row's code maps to that row's URL |
| Geo.NonEmptyOrDefault | server/src/geo.rs:114-119 | "" exactly when the field is missing or empty, and otherwise the field itself |
| Geo.InterpretResponse | server/src/geo.rs:109-130 | `Some` exactly when the request succeeded, the status is "success" and at least one of the three fields is non-blank; the result carries the three fields with blanks as ""; a result always has some non-empty field |
| Geo.PrivateNeverFetched | server/src/geo.rs:64-66 | a private address gives `None`, with no fetch and no cache change |
| Geo.RepeatLookupIsCached | server/src/geo.rs:68-79 | a second lookup of an address makes no request and gives the first answer, whatever the network would say now |
| Geo.FetchedAreNewPublic | server/src/geo.rs:62-80 | over a run of lookups, only public addresses that were not cached at the start are fetched; the cache ends up holding its old keys plus the fetched ones |
| Geo.FetchesAreDistinct | server/src/geo.rs:62-80 | over a run of lookups, no address is fetched twice |
| Geo.LookupModel | server/src/geo.rs:62-80 | a private address gives `None` with no fetch and the cache unchanged; there is a fetch exactly when the address is public and not cached, and it is the one fetch of that address, whose interpreted answer is returned and stored; without a fetch the cache is unchanged; after a public lookup the cache holds the returned answer under the address |
| Geo.GeoCache.constructor | server/src/geo.rs:26-30 | nothing has been looked up yet |
| Geo.Lookup | server/src/geo.rs:62-80 | private: `None`, no fetch, cache unchanged; cached (hit or miss): the stored entry, no fetch; otherwise one fetch whose interpreted result, `None` included, is stored under the address as given and returned |
| Ip.StripMapped | server/src/geo.rs:138 | text starting with `::ffff:` loses that prefix once; other text is unchanged |
| Ip.ParseIp | server/src/geo.rs:140 | a dotted quad parses as that IPv4 address; other text parses exactly when the IPv6 parser accepts it |
| Ip.MappedStrippedOnce | server/src/geo.rs:137-140 | `::ffff:` followed by any text is classified as that text with no second strip |
| Ip.UnparseableIsPrivate | server/src/geo.rs:162 | text that is neither IPv4 nor IPv6 counts as private |
| Ip.MappedV4ClassifiedAsV4 | server/src/geo.rs:137-153 | `::ffff:a.b.c.d` is private exactly when the IPv4 address a.b.c.d is |
| Ip.FormattedV4Classified | server/src/geo.rs:136-153 | a printed IPv4 address is private exactly when the address is |
| Ip.ParseOctet | server/src/geo.rs:140 | accepts exactly one to three digits with no leading zero and a value of at most 255, and gives that value |
| Ip.ParseV4 | server/src/geo.rs:140 | accepts exactly text with four dot-separated fields that each parse as an octet, and gives the address of those four octets |
| Ip.FormatOctet | server/src/handlers/redirect.rs:140 | one to three digits, with no leading zero |
| Ip.FormatV4 | server/src/handlers/redirect.rs:140 | the four printed octets joined by dots; it starts with a digit |
| Ip.ParseFormatOctet | server/src/geo.rs:140 | a printed octet parses back to the octet and holds no dot |
| Ip.FormatParseOctet | server/src/geo.rs:140 | octet text that the parser accepts is the octet's printed form: one spelling per value |
| Ip.ParseFormatV4 | server/src/geo.rs:140 | parsing a printed IPv4 address gives the address back |
| Ip.FormatParseV4 | server/src/geo.rs:140 | text the IPv4 parser accepts is exactly the printed form of its address |
| Ip.PrivateV4IffInBlock | server/src/geo.rs:141-153 | the IPv4 test holds exactly for addresses in one of the CIDR blocks 127/8, 169.254/16, 0.0.0.0/32, 255.255.255.255/32, 10/8, 172.16/12 and 192.168/16 |
| Ip.PrivateV4BlocksAligned | server/src/geo.rs:143-152 | each of the listed blocks has a base with no bit set past its prefix |
| Ip.PrivateV6IffInBlock | server/src/geo.rs:154-161 | the two masks test membership of fe80::/10 and fc00::/7; the IPv6 test is `::1`, `::` or one of those blocks |
| Strings.Trim | server/src/handlers/admin.rs:188 | the result neither starts nor ends with white space; it is the piece of the input right after its leading white space; everything dropped around it is white space; it is empty exactly when the input is all white space |
| Strings.TrimIdempotent | server/src/handlers/admin.rs:188 | trimming twice equals trimming once |
| Strings.TrimKeepsAbsent | server/src/handlers/redirect.rs:127 | a character absent from the input is absent from its trim |
| Strings.FirstField | server/src/handlers/redirect.rs:127 | a prefix of the input free of the separator that ends at the first separator or at the end |
| Strings.Split | server/src/handlers/redirect.rs:127 | at least one piece; the first is `FirstField`; no piece contains the separator |
| Strings.JoinSplit | server/src/handlers/redirect.rs:127 | joining the pieces with the separator gives the input back |
| Strings.SplitJoin | server/src/handlers/redirect.rs:127 | separator-free pieces joined by the separator split back into those pieces |
| Redirect.ResolveUrl | server/src/handlers/redirect.rs:24-43 | hit: the cached URL, no store query, cache unchanged; miss: one store query; an active link is back-filled before its URL is returned; no link gives NotFound and a store error gives InternalError, both with the cache unchanged; when the store answers only with active links of the asked code, a resolved code is cached to the returned URL |
| Redirect.FirstForwarded | server/src/handlers/redirect.rs:127 | the first X-Forwarded-For entry holds no comma and has no white space at either end |
| Redirect.ExtractIp | server/src/handlers/redirect.rs:124-141 | always an address; a non-empty first X-Forwarded-For entry, trimmed, wins; then a non-empty X-Real-IP, untrimmed; then the peer address |
| Redirect.ExtractedIpNonEmpty | server/src/handlers/redirect.rs:124-141 | with a non-empty peer text, the extracted address is never empty |
| Redirect.DirectV4ClientClassified | server/src/handlers/redirect.rs:140 | a direct IPv4 client with no proxy header is classified by its own address |
| Redirect.KnownOrNone | server/src/handlers/redirect.rs:154-170 | `None` exactly for "" and "UNKNOWN"; any other value is kept verbatim |
| Redirect.ParseUserAgent | server/src/handlers/redirect.rs:145-176 | all `None` for a missing or empty User-Agent or one the parser rejects; otherwise each field is present exactly when the parser's field is neither "" nor "UNKNOWN", and then verbatim; no field is ever "" or "UNKNOWN" |
| Redirect.ToColumns | server/src/handlers/redirect.rs:92-99 | the three geo columns are all absent without a geo result and all present with one |
| Redirect.RunClickPipeline | server/src/handlers/redirect.rs:73-115 | one store query; a click row exactly when the store returns the link; no link or no address means no geo lookup and no fetch; the row holds the link id, the captured metadata and the geo columns of the lookup; the geo cache is then the lookup's cache |
| Redirect.CaptureMeta | server/src/handlers/redirect.rs:46-59 | the address from `extract_ip`, User-Agent and Referer as sent, and the parsed agent fields |
| Redirect.HandleRedirect | server/src/handlers/redirect.rs:17-119 | a 303 See Other to the cached or stored URL, a 404 for an unknown code, a 500 for a store error; the link cache is unchanged on a hit and on a failed read, and is back-filled with the stored link's code and URL on a miss; a 404 or a 500 logs nothing and leaves the geo cache alone; a click is logged exactly when the redirect happens and the background job finds the link; the row holds that link's id, the extracted address, the request's User-Agent and Referer, the browser, OS and device parsed from the User-Agent, and the country, region and city of one geo lookup of the address, whose cache is the geo cache afterwards; with no row the geo cache is unchanged |
| Admin.ValidateUrl | server/src/handlers/admin.rs:188-204 | accepted exactly when the trimmed URL is non-empty and starts with `http://` or `https://`, and then it is the trimmed URL; EmptyUrl exactly when nothing is left after trimming; BadScheme exactly for a non-empty URL with neither scheme |
| Admin.ValidateUrlIdempotent | server/src/handlers/admin.rs:188-204 | an accepted URL is accepted again unchanged |
| Admin.ChooseCode | server/src/handlers/admin.rs:207-226 | a code is generated exactly when the custom code is missing or blank; the trimmed code is used exactly when it is non-empty and all letters, digits and '-'; it is rejected exactly when it holds some other character |
| Admin.NonEmptyTrimmed | server/src/handlers/admin.rs:228-240 | present exactly when the field is present and not blank after trimming, and then the trimmed text |
| Admin.NonEmptyTrimmedIdempotent | server/src/handlers/admin.rs:228-240 | normalising a field twice equals normalising it once |
| Admin.ValidateForm | server/src/handlers/admin.rs:187-240 | a URL error is reported first, then a bad custom code; otherwise the draft holds the checked URL, the custom code or a request to generate one, and the normalised title and description |
| Admin.RandomCode | server/src/handlers/admin.rs:434-441 | exactly `len` characters, the i-th being the alphabet's character at the i-th draw |
| Admin.AlphabetIsCodeText | server/src/handlers/admin.rs:436 | the alphabet has 62 characters, all letters or digits |
| Admin.RandomCodeIsCodeText | server/src/handlers/admin.rs:434-441 | a random code holds only letters and digits, and would pass as a custom code |
| Admin.CodeFrom | server/src/handlers/admin.rs:422-431 | the code chosen from the k-th attempt on: the first candidate reported free, else the fallback; a 7-character result was reported free; a 9-character result is the fallback; it holds only letters and digits |
| Admin.UniqueCode | server/src/handlers/admin.rs:422-431 | the code generation settles on: 7 characters and reported free, or the 9-character fallback; letters and digits only |
| Admin.GenerateUniqueCode | server/src/handlers/admin.rs:422-431 | returns `UniqueCode` of the draws and the store; between 1 and 10 store queries; every earlier 7-character candidate was reported taken or failed; a 7-character result is the last candidate tried and was reported free; a 9-character result comes only after all ten candidates failed, and is the fallback code |
| Admin.CreateLink | server/src/handlers/admin.rs:181-274 | a validation error is reported as is; for a valid form the code is the custom one or `UniqueCode` of the draws, and the insert's answer decides the outcome: an id gives Created with the row (id, code, URL, title, description, active) and the cache maps the code to the URL; a UNIQUE violation gives CodeTaken; any other failure gives DatabaseError; a valid form fails only with CodeTaken or DatabaseError; every rejection leaves the cache unchanged; on success the cache maps the new code to the URL, the row holds the draft's URL, title and description, the insert returned its id, and its code is the custom one or a generated letters-and-digits code of 7 or 9 characters |
| Admin.DeleteLink | server/src/handlers/admin.rs:279-323 | a read error or a missing link stops before any delete; otherwise one delete, whose answer decides Deleted, NoSuchLink or DeleteError; the cache loses the code only on Deleted and is unchanged on every other path |
| Admin.OccurrencesIsMultiplicity | server/src/handlers/admin.rs:447-450 | the occurrence count of a value is its multiplicity in the column |
| Admin.Tally | server/src/handlers/admin.rs:446-451 | the tally holds exactly the non-empty values that occur, each with its number of occurrences |
| Admin.Entries | server/src/handlers/admin.rs:452 | every entry of the tally once, with distinct names, in no promised order |
| Admin.SortByCount | server/src/handlers/admin.rs:453 | the same length and the same rows |
| Admin.SortByCountPermutes | server/src/handlers/admin.rs:453 | sorting is a permutation: the same rows, each as often |
| Admin.SortByCountOrders | server/src/handlers/admin.rs:453 | sorted counts are non-increasing |
| Admin.SortByCountKeepsNamesDistinct | server/src/handlers/admin.rs:452-453 | rows with distinct names stay distinct |
| Admin.TopByCount | server/src/handlers/admin.rs:453-454 | at most ten rows, and never more than there were |
| Admin.TopByCountOrdered | server/src/handlers/admin.rs:452-455 | the kept rows have distinct names and non-increasing counts |
| Admin.TopByCountTallied | server/src/handlers/admin.rs:446-455 | every kept row is a non-empty value with its number of occurrences |
| Admin.TopByCountDominates | server/src/handlers/admin.rs:446-455 | a non-empty value that occurs but was dropped means ten rows were kept, each counting at least as much |
| Admin.CountField | server/src/handlers/admin.rs:445-456 | at most ten rows, with distinct names and non-increasing counts; each row is a non-empty value with its positive number of occurrences; a value left out means ten rows, none counting less |
| Admin.Percent | server/src/handlers/admin.rs:463 | 0 when the total is not positive; otherwise the truncated quotient: `pct * total <= count * 100 < (pct + 1) * total` |
| Admin.PercentBounds | server/src/handlers/admin.rs:463 | a count between 0 and the total gives a percentage between 0 and 100 |
| Admin.WithPct | server/src/handlers/admin.rs:459-467 | the same length; row i keeps its name and count and gets the percentage of its count |
| Admin.PercentsAtMostShareOfSum | server/src/handlers/admin.rs:459-467 | the truncated percentages add up to at most the share of the summed counts |
| Admin.PercentsSumAtMost100 | server/src/handlers/admin.rs:459-467 | when the counts add up to no more than the total, the percentages add up to at most 100 |
| Admin.Breakdown | server/src/handlers/admin.rs:350-370 | at most ten rows of distinct, non-empty values in non-increasing count order, each with its occurrence count and its percentage of the total; when the column is no longer than the total, every percentage is 0-100 and they add up to at most 100 |

## Left out

- Concurrency: the DashMap and RwLock locking, and the race between two lookups of one address. Each operation is one atomic step. The background job that `tokio::spawn` starts runs to completion after the response is decided (`Redirect.HandleRedirect`).
- Everything the HTTP layer does: routing, status bodies and error texts, flash cookies, `set_flash_and_redirect`, the askama templates, the dashboard, the login and logout handlers and their 500 ms delay. Each handler returns an outcome value that names where it ended.
- The SQL itself (server/src/db.rs apart from `warm_cache`): every query is a parameter. `log_click` shows up only as the click row it is handed, because its error is thrown away. `get_all_links_with_stats`, `unique_ips` and the `COUNT(*)` for the total are not modelled.
- The analytics handler around the breakdowns (server/src/handlers/admin.rs:328-382): its 404 and 500 answers and the short URL. `Admin.Breakdown` models one `with_pct(count_field(…), total)` column.
- server/src/main.rs and server/src/config.rs: start-up, wiring and configuration. They are not part of this model.
- The HTTP request to ip-api.com, its 3-second timeout and the JSON decoding. A `Fetcher` parameter stands for them.
- woothee, Rust's IPv6 text parser, the UUID generator and `rand`. These are foreign code, so each one is a parameter.
- Ip.ParseOctet and Ip.ParseV4: model the decimal dotted-quad grammar that Rust's `Ipv4Addr::from_str` accepts. The standard library is not part of this model.
- Ip.StripMapped: strips only the literal lower-case `::ffff:` (`strip_prefix("::ffff:")` at server/src/geo.rs:138, as the comment at server/src/geo.rs:137 says). `::FFFF:1.2.3.4` and a fully written mapped address go to the IPv6 parser and are classified by the IPv6 arm.
- Strings.Trim: uses ASCII white space. Rust's `str::trim` also drops the other Unicode White_Space characters.
- Admin.ChooseCode: letters and digits are ASCII. Rust's `char::is_alphanumeric` also accepts non-ASCII letters and digits, so a custom code such as "café" is accepted by the source and rejected here.
- Redirect.ExtractIp: a header that is not visible ASCII (`to_str()` fails) counts as absent. The `Headers` value receives it as `None`.
- Auth.SessionStore.constructor: `session_duration_hours * 3600` is an unbounded product here. In the source it is a `u64` product, which would overflow only for absurd settings.
- Admin.Percent: `count * 100` is an unbounded product. In the source it is an `i64`, which cannot overflow for breakdown counts of at most 500.
- Auth: `Instant` is a natural number of nanoseconds, and `Duration` is a whole number of seconds, as `from_secs` builds it. `Auth.SessionStore.Create` takes one `now` for both the sweep and the new session's instant. The source reads the clock again in each `elapsed()` of the sweep (server/src/auth.rs:39) and in `Instant::now()` (server/src/auth.rs:40), so its instants can differ by the time the sweep takes.
- The `created_at` timestamps of rows, and the order of clicks by time.
- Logging: the `tracing` calls are not modelled. These are the warning and the error when the background job cannot read the link (server/src/handlers/redirect.rs:78-86), the debug messages in `fetch_geo` (server/src/geo.rs:100, 106, 110) and the count that `warm_cache` logs (server/src/db.rs:23). They have no effect on state or responses.
- Redirect.HandleRedirect: the doc comment at server/src/handlers/redirect.rs:16 says the handler returns a 302. The code (server/src/handlers/redirect.rs:118) calls `Redirect::to`, which answers 303 See Other in axum (the `axum::serve` at server/src/main.rs:130 is its 0.7 interface). The model follows the code.
- Admin.GenerateUniqueCode: asks `get_link_by_code`, which sees only active links. A code held by a deactivated link therefore reads as free, and the insert then hits the UNIQUE constraint. The source's own comment names that constraint as the real guard, and `Admin.CreateLink` reports the clash as CodeTaken.
- Admin.CreateLink: treats an insert error as a UNIQUE violation when the database reports one (`InsertReply.UniqueViolation`). The source tests whether the error text contains "UNIQUE". The row it reads back after the insert is the row just written, and a failure of that read-back counts as `InsertFailed`.
