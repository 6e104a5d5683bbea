# URL shortener: mapping table and service, modelled in Dafny

This project models the core of a URL shortener written in Java with Spring
Data JPA. The core maps six-character base62 short identifiers to long URLs.
Each mapping carries an expiry instant (`ttl`). Expired mappings are removed
lazily, when a lookup meets them, and in bulk, by a cleanup sweep.

The model has six modules:

- `Wrappers` (`wrappers.dfy`): `Option` and `Result`. They stand in for
  `java.util.Optional` and for the exception `validateUrl` raises.
- `Entity` (`entity.dfy`): the `UrlData` record as a datatype. `NewUrlData`
  is the entity's three-argument constructor, which sets `shortId`, `longUrl`
  and `ttl` and nothing else. `IsExpired(d, now)` is the entity's own check,
  `now` strictly after `ttl`.
- `Store` (`store.dfy`): the `url_data` table as a `map<string, UrlData>` keyed
  by `shortId`. The column is declared unique, so the unique constraint
  becomes the map key. `WellFormed` states the schema's guarantees. `Live` and
  `Expired` are the filters of the JPQL queries (`ttl > t` and `ttl <= t`).
  The lemmas about them are here.
- `Repository` (`repository.dfy`): `UrlDataRepository` as a class. Its field
  `rows` is the table. The read-only queries are functions. `findByLongUrl`
  is a method, because it may return any of several matching rows. `save`,
  `delete` and `deleteExpiredEntries` are methods that change `rows`.
- `ShortId` (`shortid.dfy`): the base62 alphabet, the identifier format, and
  `generateRandomShortId` as a loop that appends one character per draw.
- `Service` (`service.dfy`): `UrlService` as a class holding the repository.
  It has both `createShortUrl` overloads, the retry loop `generateUniqueShortId`,
  `getOriginalUrl`, `getUrlData`, `getAllNonExpiredUrls` and
  `cleanupExpiredUrls`. `CreateOutcome` states what a create may do to the
  table. Lemmas about it cover the round trip, freshness and dedup.

Three things the Java code takes from its environment are inputs here:

- **The clock.** `LocalDateTime.now()` becomes an integer parameter `now`, in
  seconds. `plusDays(n)` becomes `now + n * 86400`. A `LocalDateTime` has no
  time zone, so every day is exactly 86400 seconds long.
- **The random source.** `SecureRandom.nextInt(62)` becomes the parameter
  `draws: seq<seq<nat>>`. Block `j` holds the six values returned during the
  `j`-th attempt of the retry loop, and each value is below 62.
- **URL parsing.** Whether `java.net.URL` accepts a string, the test inside
  `validateUrl`, becomes the function-valued field `isValidUrl` of
  `UrlService`. It is supplied when the service is built.

Two expiry policies exist side by side, and the model keeps both as written.
The entity and the service use `IsExpired`: a row is valid at its `ttl`
instant. The repository's queries use `ttl <= t`: a row is expired at its
`ttl` instant. `Store.ExpiryBoundary` proves that the two disagree exactly when
`t == ttl`.

This boundary shows up in the service's behaviour. At `now == ttl`,
`getOriginalUrl` still resolves the row and `createShortUrl` still reuses it.
But `getAllNonExpiredUrls` omits the row, and `cleanupExpiredUrls` deletes it.
`UrlService.GetAllNonExpiredUrls` states this exactly.

## Model

| member | source | states |
|---|---|---|
| `Entity.NewUrlData` | url-shortner/src/main/java/com/systemdesign/urlshortner/service/entity/UrlData.java:53-57 | the three-argument constructor: the record's `shortId`, `longUrl` and `ttl` are its arguments, and the record has no other field |
| `Entity.IsExpired` | url-shortner/src/main/java/com/systemdesign/urlshortner/service/entity/UrlData.java:64-66 | true exactly when `now` is strictly after `ttl` |
| `Entity.ValidUntilTtl` | url-shortner/src/main/java/com/systemdesign/urlshortner/service/entity/UrlData.java:64-66 | a record is still valid at the instant `now == ttl`, and expired at every later instant |
| `Entity.ExpiryIsMonotone` | url-shortner/src/main/java/com/systemdesign/urlshortner/service/entity/UrlData.java:64-66 | once expired at `now`, a record is expired at every later instant |
| `Store.WellFormedRecords` | url-shortner/src/main/java/com/systemdesign/urlshortner/service/entity/UrlData.java:29-36 | in a table meeting the column constraints (`WellFormed`: each row under its own non-null, unique `shortId` of at most 10 characters), every stored record is found under its own `shortId`, which fits the column, and no two records share a `shortId` |
| `Store.Partition` | url-shortner/src/main/java/com/systemdesign/urlshortner/service/dao/UrlDataRepository.java:52-62 | the live filter (`ttl > t`) and the expired filter (`ttl <= t`) split the table into disjoint parts; each part keeps its rows unchanged; the two sizes add up to the table's size |
| `Store.LiveValues` | url-shortner/src/main/java/com/systemdesign/urlshortner/service/dao/UrlDataRepository.java:52-53 | the records of the live part are exactly the stored records with `ttl > t` |
| `Store.ExpiredValues` | url-shortner/src/main/java/com/systemdesign/urlshortner/service/dao/UrlDataRepository.java:61-62 | the records of the expired part are exactly the stored records with `ttl <= t` |
| `Store.LiveIsWellFormed` | url-shortner/src/main/java/com/systemdesign/urlshortner/service/dao/UrlDataRepository.java:70-71 | the rows a sweep keeps still satisfy the schema: keyed by their own `shortId`, at most 10 characters |
| `Store.SweepIsIdempotent` | url-shortner/src/main/java/com/systemdesign/urlshortner/service/dao/UrlDataRepository.java:70-71 | after the expired rows are removed at `t`, none is expired at `t`, so a second sweep removes 0 rows and keeps every row |
| `Store.LiveShrinksOverTime` | url-shortner/src/main/java/com/systemdesign/urlshortner/service/dao/UrlDataRepository.java:52-62 | at a later instant the live rows are a subset, and the expired rows a superset, of those at an earlier instant |
| `Store.ExpiryBoundary` | url-shortner/src/main/java/com/systemdesign/urlshortner/service/dao/UrlDataRepository.java:61-62 | the queries call a row expired while `UrlData.isExpired` (UrlData.java:65) calls it valid exactly when `t == ttl`; at every other instant they agree; a row the queries call live is never expired for the entity |
| `ShortId.Candidate` | url-shortner/src/main/java/com/systemdesign/urlshortner/service/UrlService.java:31-32 | each attempt's identifier has length 6, and every character is in `BASE62_CHARS` |
| `ShortId.GenerateRandomShortId` | url-shortner/src/main/java/com/systemdesign/urlshortner/service/UrlService.java:173-179 | the loop spells the identifier of the six draws, each draw picking one alphabet character; the result has the identifier format |
| `Repository.UrlDataRepository.FindByShortId` | url-shortner/src/main/java/com/systemdesign/urlshortner/service/dao/UrlDataRepository.java:28 | a row is found exactly when some stored record has that `shortId`; the one found is stored and has that `shortId`; expiry plays no part |
| `Repository.UrlDataRepository.ExistsByShortId` | url-shortner/src/main/java/com/systemdesign/urlshortner/service/dao/UrlDataRepository.java:36 | true exactly when `findByShortId` finds a row; it does not filter by expiry |
| `Repository.UrlDataRepository.FindByLongUrl` | url-shortner/src/main/java/com/systemdesign/urlshortner/service/dao/UrlDataRepository.java:44 | returns some stored record holding that URL, or nothing exactly when no stored record holds it |
| `Repository.UrlDataRepository.FindAllNonExpired` | url-shortner/src/main/java/com/systemdesign/urlshortner/service/dao/UrlDataRepository.java:52-53 | exactly the stored records with `ttl > currentTime` |
| `Repository.UrlDataRepository.FindAllExpired` | url-shortner/src/main/java/com/systemdesign/urlshortner/service/dao/UrlDataRepository.java:61-62 | exactly the stored records with `ttl <= currentTime` |
| `Repository.UrlDataRepository.FindNonExpiredByShortId` | url-shortner/src/main/java/com/systemdesign/urlshortner/service/dao/UrlDataRepository.java:80-82 | present exactly when a stored record has that `shortId` and `ttl > currentTime`; the one found is such a record |
| `Repository.UrlDataRepository.Save` | url-shortner/src/main/java/com/systemdesign/urlshortner/service/entity/UrlData.java:29-36 | an insert: it succeeds exactly when the `shortId` is unused and fits the 10-character column, and then adds exactly that row; otherwise it reports the violated constraint and changes nothing; the schema invariant is kept |
| `Repository.UrlDataRepository.Delete` | url-shortner/src/main/java/com/systemdesign/urlshortner/service/UrlService.java:100 | removes exactly the row of the entity's `shortId` and keeps the schema invariant |
| `Repository.UrlDataRepository.DeleteExpiredEntries` | url-shortner/src/main/java/com/systemdesign/urlshortner/service/dao/UrlDataRepository.java:70-71 | the table afterwards is exactly its rows with `ttl > currentTime`, unchanged; the count returned is the number of rows with `ttl <= currentTime`, which equals the drop in size; nothing expired remains |
| `Repository.QueriesPartitionRows` | url-shortner/src/main/java/com/systemdesign/urlshortner/service/dao/UrlDataRepository.java:52-62 | `findAllNonExpired(t)` and `findAllExpired(t)` are disjoint, and together they hold every stored record |
| `Repository.NonExpiredLookupAgreesWithQueries` | url-shortner/src/main/java/com/systemdesign/urlshortner/service/dao/UrlDataRepository.java:80-82 | `findNonExpiredByShortId(id, t)` finds a row exactly when `findByShortId(id)` finds one that `findAllNonExpired(t)` lists; the two then return the same row |
| `Service.PlusDays` | url-shortner/src/main/java/com/systemdesign/urlshortner/service/UrlService.java:72 | the expiry is not before `now` when `ttlDays >= 0`, and before `now` when `ttlDays < 0` |
| `Service.FreshCandidateLater` | url-shortner/src/main/java/com/systemdesign/urlshortner/service/UrlService.java:161-163 | when the current attempt collides and an unused candidate lies ahead, another attempt exists and an unused candidate still lies ahead of it |
| `Service.FirstFreshCandidateAt` | url-shortner/src/main/java/com/systemdesign/urlshortner/service/UrlService.java:159-166 | an unused candidate after a run of colliding ones is what the retry loop returns |
| `Service.UrlService.GenerateUniqueShortId` | url-shortner/src/main/java/com/systemdesign/urlshortner/service/UrlService.java:159-166 | returns the first generated identifier for which `existsByShortId` is false; it has the identifier format and is not a key of the table |
| `Service.UrlService.CreateShortUrl` | url-shortner/src/main/java/com/systemdesign/urlshortner/service/UrlService.java:58-80 | (`CreateOutcome`) an invalid URL gives `InvalidUrlFormat` and leaves the table unchanged; a row for the URL that is not expired gives its `shortId` and leaves the table unchanged; otherwise exactly one row `(id, longUrl, now + ttlDays days)` is added under the first unused generated `id`, which is returned; when every key of the table is a generated identifier, the returned id has the identifier format and every key still does |
| `Service.UrlService.CreateShortUrlWithDefaultTtl` | url-shortner/src/main/java/com/systemdesign/urlshortner/service/UrlService.java:45-47 | the same outcome as `createShortUrl(longUrl, 30)` |
| `Service.UrlService.GetOriginalUrl` | url-shortner/src/main/java/com/systemdesign/urlshortner/service/UrlService.java:89-107 | an absent id gives empty and no change; a row that is not expired gives its `longUrl` and no change; an expired row gives empty and exactly that row is deleted; a table whose keys are all generated identifiers keeps that property |
| `Service.UrlService.GetUrlData` | url-shortner/src/main/java/com/systemdesign/urlshortner/service/UrlService.java:115-117 | present exactly when the id exists, expired or not, and then it is that id's stored row |
| `Service.UrlService.GetAllNonExpiredUrls` | url-shortner/src/main/java/com/systemdesign/urlshortner/service/UrlService.java:124-126 | lists stored records only; a stored record is listed exactly when the entity calls it valid at `now` and its `ttl` is not `now` |
| `Service.UrlService.CleanupExpiredUrls` | url-shortner/src/main/java/com/systemdesign/urlshortner/service/UrlService.java:134-138 | removes exactly the rows with `ttl <= now`, keeps the rest unchanged, and returns how many it removed; a table whose keys are all generated identifiers keeps that property |
| `Service.UrlService.CreateThenResolve` | url-shortner/src/main/java/com/systemdesign/urlshortner/service/UrlService.java:58-107 | for a valid URL and `ttlDays >= 0`, resolving at the same instant the id that create returned gives back the URL, and the final table is the one the create left |
| `Service.CreatedIdResolves` | url-shortner/src/main/java/com/systemdesign/urlshortner/service/UrlService.java:62-79 | for a valid URL and `ttlDays >= 0`, a create returns an id whose row in the new table holds the URL and is not expired at that instant |
| `Service.CreateKeepsShortIds` | url-shortner/src/main/java/com/systemdesign/urlshortner/service/UrlService.java:62-79 | on a table whose keys all have the identifier format (6 characters from `BASE62_CHARS`), the id a create returns has that format, whether it reuses a row or stores a new one, and the new table's keys all have it too |
| `Service.CreateStoresFreshRow` | url-shortner/src/main/java/com/systemdesign/urlshortner/service/UrlService.java:69-79 | when a create changes the table, the returned id was not a key before and has the identifier format; exactly that key is added, with the row `(id, longUrl, now + ttlDays days)`; every other row is untouched |
| `Service.RepeatedCreateReturnsSameId` | url-shortner/src/main/java/com/systemdesign/urlshortner/service/UrlService.java:62-66 | when the first create leaves a single row for the URL, a second create of that URL at the same instant returns the same id and changes nothing |
| `Service.ZeroTtlExpiresRightAfterCreation` | url-shortner/src/main/java/com/systemdesign/urlshortner/service/UrlService.java:72-76 | a row newly created with `ttlDays == 0` is expired at every instant after its creation |

## Left out

- Spring, Lombok and JPA machinery are not modelled: `@Service`, `@Transactional`, `@Repository`, the generated `id` column, and the `createdAt`/`updatedAt` timestamps. The logic never reads the timestamps.
- Logging calls (`log.info`, `log.warn`) are output only and are not modelled.
- SecureRandom and how uniform the identifiers are: the draws are inputs, so only the format and freshness of identifiers are proved.
- `java.net.URL` parsing in `validateUrl` is a foreign library. It is the supplied function `isValidUrl`. A null URL, which Java rejects too, cannot occur, because Dafny strings are never null.
- Calendar arithmetic and the `LocalDateTime` range are not modelled. Time is an unbounded integer, so the `DateTimeException` that `plusDays` throws for an instant outside that range does not arise.
- Service.UrlService.CreateShortUrl: the model reads the clock once per call. The Java reads it twice: once in `isExpired` during dedup, and once in `plusDays`.
- Concurrency is not modelled. That covers the gap between `existsByShortId` and `save`, races between concurrent creates, and transaction isolation. The model is sequential. The database's unique constraint is the map key, and `Save` refuses a duplicate.
- Service.UrlService.CreateShortUrl: the identifier format of the id it returns is promised only for a table whose keys all have that format (`AllShortIds`). The service only ever stores generated identifiers, so its own operations keep this. A row put into the table by other means, under a key of up to 10 characters, could be returned by the dedup branch as it is.
- Service.UrlService.GenerateUniqueShortId: the Java loop has no bound. The model requires the supplied draws to contain an unused identifier and decreases over the remaining attempts. Random sources that never produce an unused identifier, which would make the Java loop run forever, are excluded.
- Service.UrlService.CreateShortUrl: requires an unused identifier among the draws whenever generation can happen. That means the URL is valid and either no row holds it or some row holding it is expired.
- Framework behaviour of the code as written is not modelled; the intended query semantics is. The JPQL `DELETE` lacks `@Modifying`, so Spring would reject the call. A `findByLongUrl` that matches several rows would raise an exception. In the model it returns any one of them.
- Query results that Java returns as a `List` are sets here. The database guarantees no order. Each record appears once, because `shortId` is unique.
- The Java `int` returned by `cleanupExpiredUrls` is a natural number here. A 32-bit overflow would need more than 2^31 rows.
- Store.ExpiryBoundary: the two expiry policies are kept as the code has them. The model exposes their disagreement at `t == ttl` and does not unify them.
