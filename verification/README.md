# bbqrcode backend: a verified model

A Dafny model of the stateful core of the QR-link backend, with proofs about whole runs of it.

| file | what it models |
|---|---|
| `TokenBucket.dfy`, `Limiter.dfy` | one token bucket; the dual-window limiter as a value (`LimiterSpec`) and as the object that updates its dict of entries in place (`Limiter`) |
| `LimiterRuns.dfy`, `LimiterQuota.dfy`, `LimiterRetry.dfy`, `DenyLog.dfy` | theorems over arbitrary sequences of checks and deny-logs |
| `Authorization.dfy`, `Links.dfy` | the link table, its request handlers, token allocation, scan recording: the server without a cache |
| `LinkCache.dfy`, `LinkServer.dfy` | the read-cache object, the server that uses it, and its refinement of the server without one |
| `CacheInterleaving.dfy` | the same cache with any number of concurrent readers and writers |
| `Png.dfy`, `Base62.dfy`, `Text.dfy`, `Utf8.dfy`, `ForwardedFor.dfy`, `QueryString.dfy` | the codecs |
| `UrlText.dfy`, `UrlValidator.dfy`, `UrlRules.dfy`, `StoredUrls.dfy`, `UrlPasses.dfy` | URL text and its parts; validation from text to text, and its rules spelled out; validating what was stored, once and repeatedly |
| `Customization.dfy` | versioned storage objects and one row per link |
| `Analytics.dfy` | scan aggregation and the queries behind it |

Conventions. A run is a sequence of events; `After` (or `Run`) is the state it leaves, defined
from the run without its last event, so a theorem about all runs is an induction on that.
Each object method is proved equal to a function on values, and the run theorems are about
those functions. What the source reads from outside is a parameter: clock readings, digests,
random key suffixes, which cache entries get evicted, and what a library says about a host.
Tokens, rates and clocks are exact reals. Limiter theorems assume both limits are positive, as
startup validates (backend/main.py:91-98), and a monotone clock; the deny-log theorems also
assume a non-negative clock, since `int()` would make second 0 two seconds long otherwise.
A link's `label` is called `tag` here (`label` is a Dafny keyword). The URL theorems rely on three
properties of other libraries (`StoredUrls.Sound`): case does not matter to addresses, a host
accepted in brackets has a colon or starts with "v", and IDNA gives names of lower-case letters,
digits, hyphens and dots; `StoredUrls.NoAddressesSound` shows they can be met. `UrlText` follows
urllib.parse of CPython 3.12.9, the series the repository pins (Dockerfile:28).
A lemma named `...Exact` states what one operation does without that operation's own vocabulary:
the characters, byte values and limits are written out, and every answer has its condition.

## Findings

- The deny-log cap is not unconditional. For the middleware, which logs once per denial, it holds for
  all requests exactly when each log follows its check by at most the TTL minus one second
  (`DenyLog.MiddlewareLagExact`). With any longer lag thirteen requests, the second of them logged
  late, emit eleven warnings in one second (`DenyLog.LateLogsBreakTheCap`); the middleware logs at once.
- `evict` promises that "the very next redirect" reads the new state (backend/link_cache.py:99-101).
  Under concurrency that holds exactly when no load straddles a commit and its eviction
  (`CacheInterleaving.LookupAfterEvictSees`, and `FreshnessExact` for the converse);
  `StraddlingHappens` is a run where it fails. The 300 s bound always holds, up to the duration of a
  load (`StalenessBound`).
- Canonicalising a URL is not idempotent. A stored URL is its own canonical form exactly when it is
  within the length cap, its authority and host are taken again (the checks look at a host before
  IDNA), and its path is settled: not empty, no ';' left without parameters, and "/" or not ending in
  '/' before the parameters (`StoredUrls.SecondPass`; `OrdinarySecondPass` when only the path and the
  cap can matter). "https://h/a/;b/" is stored as "https://h/a/;b", which becomes "https://h/a;b"
  (`UrlPasses.DropsSlashExample`). Repeated passes come to rest (`UrlPasses.Converges`); a URL
  with k times "/;" in its path takes exactly k of them (`UrlPasses.ManyPasses`).
- A malformed port makes `parsed.port` raise a ValueError that no handler turns into INVALID_URL
  (backend/url_validator.py:73): `UrlValidator.CrashExact` says when, `UrlPasses.PortDecides` for every
  port text after a name, `UrlPasses.PortExample` at "https://h:x". POST and PATCH then answer 500
  (`Links.CreateExact`, `Links.PatchExact`).
- ADR 0001 says PATCH of a deleted link answers 410; the code answers 409
  (backend/link_state.py:41-42), exactly when `Links.PatchExact` says, and the model follows the code.

## Model

| member | source | states |
|---|---|---|
| TokenBucket.RefillComposes | backend/rate_limiter/token_bucket.py:11-16 | refilling in two steps gives the same bucket as refilling in one |
| TokenBucket.RefillFills | backend/rate_limiter/token_bucket.py:11-13 | a bucket idle for capacity/rate seconds is full, whatever it held |
| Limiter.RateLimiter.constructor | backend/rate_limiter/limiter.py:46-54 | a new limiter holds no entries |
| Limiter.RateLimiter.Pop | backend/rate_limiter/limiter.py:80-81 | one key leaves the dict and its insertion order, every other entry object stays |
| Limiter.RateLimiter.PruneEntry | backend/rate_limiter/limiter.py:67-71 | the key's own entry goes exactly when idle longer than the TTL |
| Limiter.RateLimiter.ExpiredKeys | backend/rate_limiter/limiter.py:75-79 | finds exactly the expired keys among the ten oldest insertions |
| Limiter.RateLimiter.Sweep | backend/rate_limiter/limiter.py:73-81 | removes exactly those keys and keeps the order of the rest |
| LimiterSpec.SweepExact | backend/rate_limiter/limiter.py:73-81 | a key is swept exactly when it is one of the first ten in insertion order and idle for more than 172,800 seconds; the others are untouched |
| LimiterSpec.WithoutCons | backend/rate_limiter/limiter.py:73-81 | removing keys decides on each key alone and keeps the order of the rest |
| Limiter.RateLimiter.Upsert | backend/rate_limiter/limiter.py:83-90 | stores buckets and access time, keeping an existing entry's place and deny counter |
| Limiter.RateLimiter.Check | backend/rate_limiter/limiter.py:92-147 | prune, sweep, decide and store: the verdict and the whole new table |
| LimiterSpec.DecideExact | backend/rate_limiter/limiter.py:104-147 | a check is allowed exactly when both buckets hold a whole token; then each loses one, otherwise neither does, and the hourly bucket is named before the daily |
| LimiterSpec.CheckOthers | backend/rate_limiter/limiter.py:92-101 | a check removes another key exactly when that is idle past two days and among the ten oldest, and changes no other entry |
| LimiterSpec.CheckOwn | backend/rate_limiter/limiter.py:67-90 | the caller ends with an entry accessed now, its deny counter kept unless it had been idle past two days |
| LimiterSpec.CheckOrder | backend/rate_limiter/limiter.py:67-90 | the insertion order loses the removed keys and gains the caller at the end only if it had no entry left |
| LimiterSpec.LogUnknown | backend/rate_limiter/limiter.py:156-166 | the denial of a key without an entry is a warning and stores nothing |
| Limiter.RateLimiter.LogDenied | backend/rate_limiter/limiter.py:149-172 | counts the denial in its clock second and warns for the first ten |
| LimiterRuns.IdleIsFresh | backend/rate_limiter/limiter.py:54-71 | past the TTL, both of a key's buckets are exactly what fresh ones would be |
| LimiterRuns.Tracks | backend/rate_limiter/limiter.py:67-102 | in every run, an entry holds the buckets of a limiter that never prunes, and a missing entry was idle past the TTL |
| LimiterRuns.PruningInvisible | backend/rate_limiter/limiter.py:54-147 | every answer equals that of a limiter that never drops an entry and hears only this key's checks |
| LimiterRuns.DenialIsNoOp | backend/rate_limiter/limiter.py:104-147 | removing any set of denied checks from a run changes no other answer, to any key |
| LimiterQuota.RateBound | backend/rate_limiter/limiter.py:14-22 | in every run and interval, allowed checks of a key are at most limit*(1+length/period), for both windows |
| LimiterQuota.SpacedNeverDenied | backend/rate_limiter/limiter.py:14-22 | a key whose checks are always the larger period/limit apart is never denied |
| LimiterQuota.AnswerFields | backend/rate_limiter/limiter.py:117-147 | limit, bucket, wait and reset of every answer; an allowed reset is the time of one hourly token to the nearest second |
| LimiterQuota.FirstRemaining | backend/rate_limiter/limiter.py:56-65 | the first check of a key is allowed and leaves one less than the smaller of the two limits |
| LimiterQuota.RemainingExactNow | backend/rate_limiter/limiter.py:113-128 | after an answer with remaining r, exactly r more checks at that instant are allowed, counting down |
| LimiterQuota.RemainingLater | backend/rate_limiter/limiter.py:113-128 | at any later times, with other keys interleaved, at least r more checks are allowed |
| LimiterRetry.RetryAfterSound | backend/rate_limiter/limiter.py:130-147 | waiting Retry-After without a success, the triggering bucket no longer denies; if it was the daily one, the check is allowed |
| LimiterRetry.RetryAfterTight | backend/rate_limiter/limiter.py:130-138 | any check more than a second earlier than Retry-After is denied, whatever happens in between |
| LimiterRetry.RetryAfterExact | backend/rate_limiter/limiter.py:130-138 | Retry-After is the least whole number of seconds R with (R - 1) * rate <= missing part < R * rate, for the bucket that denied |
| DenyLog.DenyLogCap | backend/rate_limiter/limiter.py:149-172 | of n denials of a key logged in one clock second exactly min(n, 10) are warnings, in every disciplined run |
| DenyLog.DispatchDisciplined | backend/rate_limiter/middleware.py:143-157 | what the middleware does with requests, one at a time, is such a run |
| DenyLog.MiddlewareLogCap | backend/rate_limiter/middleware.py:143-157 | so the middleware never emits more than ten warnings per key and second |
| DenyLog.LateLogsBreakTheCap | backend/rate_limiter/middleware.py:143-157 | with a longer lag, thirteen requests, each denial logged once, emit eleven warnings in one second |
| DenyLog.MiddlewareLagExact | backend/rate_limiter/middleware.py:143-157 | the middleware's cap holds for all requests with a given lag if and only if it is at most the TTL minus one second |
| DenyLog.LagBoundExact | backend/rate_limiter/limiter.py:149-172 | the same bound is exact for any callers that check before they log |
| Links.Find | backend/link_repository.py:11-15 | the row with that token, or none exactly when no row has it |
| Links.AllocateFree | backend/token_generator.py:29-46 | allocation returns an unused seven-digit token, and fails exactly when every attempt's token is taken |
| Links.CreateExact | backend/link_repository.py:34-68 | a create adds exactly one row with the returned token and the body's fields, or changes nothing; when exactly it answers 403, 422 and either 500 |
| Links.CreateTakesFirst | backend/token_generator.py:36-46 | the new token is that of the first of the ten digests that is free |
| Links.PatchExact | backend/router.py:639-675 | when exactly a PATCH answers 404, 403, 422, 500, 409 or succeeds, and that only success changes anything |
| Links.PatchNotFound | backend/authorization.py:27-46 | for any token, a PATCH answers 404 exactly when the caller owns no link with it |
| Links.PatchSets | backend/router.py:647-675 | a PATCH that succeeds sets just the given fields of its row and the update time |
| Links.DeleteExact | backend/router.py:685-700 | when exactly a DELETE answers 404, 403 or succeeds, and that it sets the deletion time of that one row if it had none and changes nothing else |
| Links.UnknownToken | backend/router.py:639-700 | PATCH, DELETE and redirect of a token without a row answer 404 and change nothing |
| Links.RedirectExact | backend/router.py:546-566 | 410 exactly when the row is deleted or past its expiry, otherwise 302 to its URL |
| Links.TokensDistinct | backend/models.py:32-36 | stored tokens are distinct seven-digit Base62 strings in every run |
| Links.RowsPersist | backend/link_repository.py:71-97 | rows keep id, token, owner and creation time for ever, and are frozen once deleted |
| Links.OnlyOwnerChanges | backend/authorization.py:27-46 | a row changes in a run only if its non-demo owner sent a PATCH or DELETE for it |
| Links.StateMovesForward | backend/link_state.py:61-66 | with no PATCH, a link only moves from active to expired to deleted |
| Links.ScansConserved | backend/router.py:552-565 | every redirect that found its token is recorded exactly once, persisted or queued, with its own status |
| Links.RedirectRecords | backend/router.py:552-565 | a redirect that finds its row adds exactly one record of its own visitor: a scan with 410 and this instant if the link is over, else a queued task with 302 |
| Links.TaskPersists | backend/router.py:185-206 | a task that runs leaves the queue and becomes one scan, made now and otherwise unchanged |
| Links.RecordsConserved | backend/router.py:552-565 | in every run the records persisted and queued are, as a multiset of token, status and visitor, those of the redirects that found their token |
| RedirectCache.LinkCache.Lookup | backend/link_cache.py:75-78 | the first locked section: a hit is an entry younger than the TTL |
| RedirectCache.LinkCache.Insert | backend/link_cache.py:88-94 | the second locked section inserts, or adopts a live entry |
| RedirectCache.LinkCache.GetOrLoad | backend/link_cache.py:66-94 | both together, caching nothing for an unknown token |
| RedirectCache.SeenForTtl | backend/link_cache.py:66-94 | a loaded value is what every lookup gets for exactly the next 300 seconds, and then the loader decides again |
| RedirectCache.AdoptsLiveEntry | backend/link_cache.py:88-94 | an insert that finds a live entry keeps it and answers with it |
| RedirectCache.OneTokenOnly | backend/link_cache.py:66-94 | a lookup or load of one token touches no other entry |
| RedirectCache.LinkCache.Evict | backend/link_cache.py:96-103 | the token's entry is gone, the others stay |
| RedirectCache.LinkCache.Drop | backend/link_cache.py:62-63 | expiry and capacity may remove any entries and change nothing else |
| CachedServer.LinkServer.GetLink | backend/link_repository.py:11-15 | the query finds the same row as its specification |
| CachedServer.LinkServer.AllocateToken | backend/token_generator.py:36-46 | at most ten inserts; the first unused token gets the row, or the table is untouched |
| CachedServer.LinkServer.CreateQr | backend/router.py:215-256 | the create handler, with its refusals in order |
| CachedServer.LinkServer.PatchLink | backend/router.py:627-682 | the PATCH handler: refusals in order, the fields given, then the eviction |
| CachedServer.LinkServer.DeleteLink | backend/router.py:685-700 | the DELETE handler: idempotent soft delete, then the eviction |
| CachedServer.LinkServer.Redirect | backend/router.py:533-566 | the redirect handler through the cache, with the scan it records |
| CachedServer.LinkServer.RecordScanBackground | backend/router.py:185-206 | a queued task turns into one persisted scan |
| CachedServer.CoherentStep | backend/router.py:677-699 | any request keeps the cache equal to the rows and answers as the rows would |
| CachedServer.CacheRefines | backend/link_cache.py:66-103 | over all sequences of requests, expiries and evictions, answers and database are those of the server without a cache |
| CachedServer.DeletedStaysGone | backend/router.py:697-699 | after a successful DELETE every later redirect of the token answers 410 |
| CachedServer.OwnerDeletes | backend/router.py:695-700 | once a link's own non-demo owner has sent a DELETE, every later redirect of it answers 410 |
| CachedServer.NextRedirectSeesPatch | backend/router.py:677-678 | the very next redirect after a successful PATCH answers from the patched row |
| CachedServer.CreatedLinkServed | backend/link_cache.py:10-15 | a new link redirects to its URL until it expires, with no eviction needed, unless its owner acts |
| CachedServer.UnknownRedirect | backend/link_cache.py:80-86 | a redirect of an unknown token answers 404, records nothing and caches nothing |
| CachedServer.RedirectFills | backend/link_cache.py:80-94 | a redirect that finds its row leaves a live entry of it and touches no other |
| CachedServer.OthersStayCached | backend/router.py:677-699 | any other request evicts at most its own token, and that only if it succeeds |
| CacheInterleaving.StepsAreTheCacheOperations | backend/link_cache.py:75-94 | lookups, inserts, evictions and losses are the cache object's own operations |
| CacheInterleaving.HitsForTtl | backend/link_cache.py:62-78 | as time passes a lookup answers from an entry until 300 seconds after its insert, and from then on has to load |
| CacheInterleaving.MissFills | backend/link_cache.py:80-94 | an undisturbed load and insert answer with what the database holds and cache it as of now |
| CacheInterleaving.MissFindsNothing | backend/link_cache.py:70-81 | a load that finds no row answers so and caches nothing |
| CacheInterleaving.CommitLogged | backend/router.py:671-678 | a commit goes to the database alone; the cache waits for the eviction |
| CacheInterleaving.ValueAfter | backend/link_repository.py:11-15 | the database holds a token's last commit |
| CacheInterleaving.StalenessBound | backend/link_cache.py:66-94 | in every interleaving, what a lookup returns was the database's value less than 300 s plus the slowest load earlier |
| CacheInterleaving.EvictionIsOwed | backend/link_cache.py:96-103 | from an eviction on, every lookup of the token is owed the evicted commit |
| CacheInterleaving.LookupAfterEvictSees | backend/link_cache.py:96-103 | without a straddling load, every answer whose lookup came after an eviction of its token holds the evicted commit's value or a later one |
| CacheInterleaving.FreshnessWithoutStraddling | backend/link_cache.py:80-94 | if no load straddles a commit and its eviction, every lookup returns at least the commits it is owed |
| CacheInterleaving.FreshnessExact | backend/link_cache.py:80-94 | no straddling load if and only if the run is fresh at every point and under any next lookup |
| CacheInterleaving.StraddleShowsStale | backend/link_cache.py:90-94 | after a straddling insert the very next lookup returns the stale value |
| CacheInterleaving.StraddlingHappens | backend/router.py:677-678 | a concrete run in which a lookup after the eviction returns the old value |
| Png.StripPngExif | backend/storage.py:346-368 | the chunk loop computes the filter of the parsed chunks |
| Png.StripFiltersChunks | backend/storage.py:358-367 | parsing the output gives the input's chunks in order without the metadata ones |
| Png.StripAnyBytes | backend/storage.py:352-368 | on any bytes: the output is the signature and the chunks not named tEXt, zTXt, iTXt or eXIf, in order; it parses to them, is no longer, and is a fixed point; other formats are untouched |
| Png.MetadataNames | backend/storage.py:355 | the dropped chunk types are exactly these four names |
| Png.RawChunksExact | backend/storage.py:358-367 | how a body parses: twelve bytes at least, a length with the most significant byte first, and a last chunk that may be cut short |
| Png.SerialiseExact | backend/storage.py:358-367 | where the length, kind, data and CRC of a serialised chunk stand |
| Png.SniffExact | backend/storage.py:320-343 | an image is recognised exactly by the signature of PNG, JPEG, GIF or WebP |
| Png.StripRoundTrip | backend/storage.py:346-368 | on a serialised chunk list, the serialisation of the list without the four named types |
| Png.StripKeepsType | backend/storage.py:328-343 | stripping never changes what an image is recognised as |
| Base62.GenerateToken | backend/token_generator.py:20-26 | the digit loop and its padding compute the token of the digest |
| Base62.AlphabetIs | backend/token_generator.py:7 | the alphabet string is digit value by digit value what the proofs use |
| Base62.DigitsDecode | backend/token_generator.py:21-25 | the digits decode back to the number and have no leading zero |
| Base62.NumeralUnique | backend/token_generator.py:21-25 | they are the only such digits |
| Base62.DigestFits | backend/token_generator.py:19-25 | a 256-bit digest has at most 43 digits |
| Base62.TokenIsTopDigits | backend/token_generator.py:26 | the token is the numeral's top seven digits, right-padded with '0', and starts with '0' only for 0 |
| ForwardedFor.ForwardEntries | backend/rate_limiter/ip_extraction.py:40 | after a chain of proxies the entries are the client's own, then one per proxy, in order |
| ForwardedFor.TrustedHopDecides | backend/rate_limiter/ip_extraction.py:36-42 | behind N trusted proxies the address is the one the outermost of them saw, whatever the client wrote |
| ForwardedFor.PeerExactlyWhen | backend/rate_limiter/ip_extraction.py:33-44 | otherwise, with N = 0 or too few entries, it is the socket peer |
| ForwardedFor.EntriesJoined | backend/rate_limiter/ip_extraction.py:40 | a comma separates entries, in order, whatever stands on either side |
| ForwardedFor.FieldEntries | backend/rate_limiter/ip_extraction.py:40 | a field between commas gives its text without outer white space, and nothing if it is blank |
| ForwardedFor.CommaSpaceDecides | backend/rate_limiter/ip_extraction.py:36-42 | the same for proxies that write ", " and an address of hex digits, dots and colons |
| Text.SplitJoin | backend/url_validator.py:98-99 | joining separator-free fields and splitting again gives them back |
| Utf8.RoundTrip | backend/url_validator.py:98-99 | decoding undoes encoding on every text |
| Utf8.EncodeCharExact | backend/url_validator.py:99 | how many bytes a character takes and what each of them holds |
| Utf8.DecodeFaithful | backend/url_validator.py:98-99 | bytes decoded without a replacement character are the encoding of the result |
| Utf8.ReplacesMaximalPiece | backend/url_validator.py:98-99 | bytes that start no character are replaced one maximal piece at a time |
| QueryString.UnquoteQuote | backend/url_validator.py:98-99 | every text survives percent-encoding and decoding |
| QueryString.QuoteByteExact | backend/url_validator.py:99 | which bytes are written as they are, as "+", and as "%" and two upper-case hex digits |
| QueryString.EscapeDecodes | backend/url_validator.py:98 | "%hl" decodes as its byte in any context, with either case for each hex digit |
| QueryString.PercentStays | backend/url_validator.py:98 | a "%" that two hex digits do not follow stays |
| QueryString.PlainTextDecodes | backend/url_validator.py:98 | text without "%" and "+" decodes as itself |
| QueryString.PlusDecodes | backend/url_validator.py:98 | "+" decodes as a space |
| QueryString.FieldExact | backend/url_validator.py:98 | a field is cut at its first "="; without one its value is empty |
| QueryString.ParseConcat | backend/url_validator.py:98 | "&" separates fields: the pairs of the first part, then those of the second |
| QueryString.EmptyFieldsSkipped | backend/url_validator.py:98 | empty fields give no pair |
| QueryString.EncodeExact | backend/url_validator.py:99 | the encoding of a list is "name=value" for each pair, with "&" between |
| QueryString.ParseEncode | backend/url_validator.py:98-99 | parsing an encoded list of pairs gives exactly that list |
| QueryString.SortOrders | backend/url_validator.py:98 | the pairs come out in order, and exactly the same ones |
| QueryString.CanonicalExact | backend/url_validator.py:98-99 | two queries have one canonical form if and only if they decode to the same pairs |
| QueryString.CanonicalIdempotent | backend/url_validator.py:98-99 | canonicalising twice is canonicalising once, and loses no pair |
| QueryString.CanonicalSorted | backend/url_validator.py:98-99 | the pairs of the canonical form come in character order of name, then value |
| QueryString.CanonicalAnySpelling | backend/url_validator.py:98-99 | changing the case of the hex digits of any escape, anywhere, leaves the pairs and the canonical form as they were |
| QueryString.CanonicalReordered | backend/url_validator.py:98-99 | reordering the fields of the text does not matter |
| UrlText.SplitUrlOf | backend/url_validator.py:22-101 | an https URL put together from an authority, a path and a query comes apart into the same three |
| UrlText.FragmentDropped | backend/url_validator.py:22-101 | a fragment makes no difference, whatever it holds |
| UrlText.BreakIgnored | backend/url_validator.py:22 | a tab or line break makes no difference, wherever it stands |
| UrlText.ControlSkipped | backend/url_validator.py:22 | nor does a leading space or control character |
| UrlValidator.PathTwice | backend/url_validator.py:92-96 | the path rule applied twice: stable unless the path was two or more slashes only |
| UrlValidator.RewriteShrinks | backend/url_validator.py:92-101 | a pass over a path and its parameters is a fixed point exactly when the path is settled, and otherwise shortens it or turns "" into "/" |
| UrlValidator.CrashExact | backend/url_validator.py:16-73 | validation crashes exactly when length, authority, scheme and host are accepted and the port text is malformed |
| UrlRules.RejectExact | backend/url_validator.py:15-69 | what exactly is rejected: by length, authority, scheme, and a host that is missing, this machine, internal or refused by IDNA |
| UrlRules.UnbracketedExact | backend/url_validator.py:21-24 | which authorities without a bracketed host are taken: no stray bracket, and safe under NFKC |
| UrlRules.BracketedExact | backend/url_validator.py:21-24 | "[host]" is taken exactly when the host may stand in brackets and at most a port follows |
| UrlRules.BracketFirst | backend/url_validator.py:21-24 | nothing may stand between user information and the bracket |
| UrlRules.ZoneKeepsCase | backend/url_validator.py:29 | the host is read in lower case up to an IPv6 zone |
| UrlRules.OtherSchemesRejected | backend/url_validator.py:26-27 | any scheme but http and https, in whatever case, is rejected |
| UrlRules.SchemesAlike | backend/url_validator.py:26-71 | http and https, in any case, give the same outcome |
| UrlRules.LoopbackRejected | backend/url_validator.py:33-34 | "localhost" and names ending in ".localhost", in any case, are rejected |
| UrlRules.OrdinaryExact | backend/url_validator.py:15-101 | the outcome for any URL of an ordinary host, from text to text: rejected if too long, a crash if the port is above 65535, and otherwise the very text stored |
| UrlRules.DecimalOfNumber | backend/url_validator.py:73-84 | a port without leading zeros is stored as it was written |
| UrlRules.SegmentKept | backend/url_validator.py:92-101 | a path with a last segment is kept, with its parameters unless they are a lone ";" |
| UrlRules.RootKept | backend/url_validator.py:92-101 | "/" stays, with its parameters unless they are a lone ";" |
| UrlRules.FoldersTrimmed | backend/url_validator.py:92-101 | a path that ends in slashes loses all of them, before its parameters too |
| UrlRules.SlashesDropped | backend/url_validator.py:92-101 | several slashes alone leave no path, or "/" before parameters |
| StoredUrls.NetlocApart | backend/url_validator.py:77-90 | the user information, host and port of a stored authority are read back as they were written |
| StoredUrls.NormaliseKeeps | backend/url_validator.py:71-101 | from text to text: https, lower-case host, user information, non-default port, rewritten path and the same query pairs |
| StoredUrls.InternationalKept | backend/url_validator.py:61-67 | a non-ASCII name is stored as IDNA gives it |
| StoredUrls.SecondPass | backend/url_validator.py:15-101 | the exact condition under which validating a stored URL changes nothing, and when it is refused |
| StoredUrls.OrdinarySecondPass | backend/url_validator.py:15-101 | for an ASCII authority without stray brackets, the path and the length cap decide alone |
| UrlPasses.Converges | backend/url_validator.py:15-101 | repeated passes reach a fixed point, after at most as many as the path has characters, and one |
| UrlPasses.ManyPasses | backend/url_validator.py:92-101 | for every k within the length cap, a URL with k times "/;" takes exactly k passes |
| UrlPasses.SemicolonsSettled | backend/url_validator.py:92-101 | of those passes only the last reaches a settled path |
| UrlPasses.SecondPassDropsSlash | backend/url_validator.py:92-101 | a second pass drops the '/' that a first one left before parameters |
| UrlPasses.DropsSlashExample | backend/url_validator.py:92-101 | the same at "https://h/a/;b/" |
| UrlPasses.SlashBeforeExample | backend/url_validator.py:92-101 | "https://h//;p" is stored as "https://h/;p", which stays |
| UrlPasses.PortDecides | backend/url_validator.py:73-84 | after a name, the port text alone decides between a crash and a stored URL |
| UrlPasses.PortExample | backend/url_validator.py:73 | "https://h:x" crashes |
| Customization.KeySuffix | backend/router.py:118-125 | a key's random part can be read back, so fresh suffixes make fresh keys |
| Customization.StoreInvariant | backend/customization_repository.py:23-55 | in every run each row's objects exist, each link has at most one row, and every object is of the type recorded for it |
| Customization.NeverOverwritten | backend/router.py:401-412 | no stored object is ever overwritten or lost |
| Customization.ServesLastPut | backend/router.py:290-313 | image and logo endpoints serve the stripped bytes of the link's own last accepted PUT |
| Customization.PutExact | backend/router.py:349-428 | the answer to every PUT from its own fields: 404, 403, 422, 413 or saved under which keys; nothing changes unless it is saved |
| Customization.RowServed | backend/customization_repository.py:23-55 | the row of an accepted PUT holds its style, keys and time, and other links keep theirs |
| Customization.OnlyOwnerRestyles | backend/router.py:374-375 | the image and logo a link shows change only through a PUT by that link's own non-demo owner |
| Customization.ImageEndpoint | backend/router.py:290-327 | 404 for an unknown token, the last accepted PUT's picture, or the plain code |
| Customization.InMemoryGateway.Put | backend/storage.py:100-107 | writes one key, with its content type, and no other |
| Customization.InMemoryGateway.Get | backend/storage.py:123-125 | reads what is stored, or nothing |
| Customization.CustomizationService.GetCustomization | backend/customization_repository.py:16-20 | finds the link's row, or none exactly when it has none |
| Customization.CustomizationService.UpsertCustomization | backend/customization_repository.py:23-55 | replaces the link's row in place or appends one |
| Customization.CustomizationService.ValidateAndStripImage | backend/router.py:330-346 | size cap, recognition, then the strip |
| Customization.CustomizationService.PutCustomization | backend/router.py:349-428 | the PUT handler: refusals in order, then objects, then the row |
| Customization.CustomizationService.QrImage | backend/router.py:290-327 | the image endpoint without a CDN: 404 for an unknown token, the composite, or the plain code |
| Analytics.ScansByField | backend/analytics.py:42-51 | the loop computes the tally of the values |
| Analytics.TallyCounts | backend/analytics.py:47-51 | a tally has a key per occurring value, with its number of occurrences |
| Analytics.BreakdownTotal | backend/analytics.py:14-21 | each categorical breakdown sums to total_scans |
| Analytics.BreakdownExact | backend/analytics.py:42-51 | each breakdown counts its own field's values, a missing or empty one as "unknown" |
| Analytics.ScansByDay | backend/analytics.py:24-39 | the loop and the sort give one row per day, strictly ascending |
| Analytics.DayTallyCounts | backend/analytics.py:28-31 | a day's entry counts that day's scans and tallies their status codes |
| Analytics.DayRowExact | backend/analytics.py:24-39 | a row counts the scans of its 86,400 seconds, in all and by status code |
| Analytics.DayRowsCover | backend/analytics.py:24-39 | every scan falls on some row's day, and every row has scans |
| Analytics.DaysTotal | backend/analytics.py:32-39 | the days' counts sum to total_scans |
| Analytics.DayCodesTotal | backend/analytics.py:30-37 | a day's status counts sum to its count |
| Analytics.NewestFirstSorts | backend/analytics.py:70 | the order is newest first, complete, and keeps ties as given |
| Analytics.RecentIsTop | backend/analytics.py:54-70 | recent_scans is the first min(limit, n) of the only such order |
| Analytics.DashboardAgrees | backend/scan_repository.py:38-57 | the dashboard's count of a token is its analytics total |
| Analytics.CountsListed | backend/scan_repository.py:38-57 | it lists no token that was not asked for, nor one without scans |
| Analytics.ScansForTokenExact | backend/scan_repository.py:34-35 | the query returns exactly the token's scans |
| Analytics.TotalScansAreAttempts | backend/router.py:552-565 | in every run a token's total plus its queued scans is its number of redirects that found it |

## Left out

- Float rounding in the limiter: tokens, rates and clocks are exact reals.
- Limiter.RateLimiter.Check: the `policy` string, a constant rendering of the two windows, is not modelled.
- Rule matching, key choice and response headers in the middleware: single-branch facts.
- Several limiter processes, and threads inside one limiter: one worker runs check and log without yielding.
- CacheInterleaving.StepsAreTheCacheOperations: the second locked section reads the clock once here; the library reads it for the membership test and again for the item, so an entry expiring in between raises KeyError (backend/link_cache.py:90-93).
- CacheInterleaving.StalenessBound: capacity eviction is a step that may drop any entries, not the library's least-recently-used order.
- StoredUrls.SecondPass: IDNA, IP-literal classification, the check of bracketed hosts and the NFKC check of non-ASCII authorities are parameters (`UrlValidator.Library`).
- UrlText.SplitUrlOf: only ASCII letters have case here; Python's `lower()` also maps others, which can matter to an IPv6 zone id alone, since IDNA folds case itself.
- QueryString.Canonical: lone surrogates, which have no UTF-8 encoding, are outside Dafny's character type.
- Python's `sorted` is modelled by insertion sorts whose results are proved to be the only possible ones; SHA-256 and the nonce are an arbitrary digest.
- ISO date strings: days are day numbers, whose order is that of the strings for four-digit years.
- The database is a sequence of rows with atomic commits; savepoints and sessions are not modelled.
- Links.ScansConserved: background tasks run in any order but are not lost; a crash between response and task would lose one.
- Customization.CustomizationService.PutCustomization: the cache-control header, which the in-memory gateway ignores, is not modelled.
- Customization.ServesLastPut: no outside deletion of stored objects; the CDN redirect, S3 and the on-disk gateway are not modelled.
- Listing links and link info only read rows; label trimming maps a label before it is stored; sessions supply the user; geo and device derivation supply a scan's attributes; error envelopes wrap the statuses. Their results are parameters or outputs of the model, so the theorems hold whatever they are.
- The frontend and the scripts run outside the server.
