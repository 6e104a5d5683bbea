/**
 * UrlService: creates short URLs, resolves them with lazy deletion of
 * expired rows, lists the live ones and sweeps the expired ones.
 *
 * The clock is the parameter `now`; the random source is the parameter
 * `draws` (per attempt of the retry loop, the values SecureRandom.nextInt(62)
 * returns, in order); the URL
 * check of validateUrl (whether java.net.URL accepts the string) is the
 * service's `isValidUrl` function, supplied from outside.
 */
module Service {
  import opened Wrappers
  import opened Entity
  import opened Store
  import opened ShortId
  import opened Repository

  const DEFAULT_TTL_DAYS: int := 30

  const SECONDS_PER_DAY: int := 86400

  /** The IllegalArgumentException that validateUrl raises. */
  datatype ServiceError = InvalidUrlFormat

  /** LocalDateTime.plusDays on the integer clock: a local date-time has no zone, so a day is always 86400 seconds. */
  function PlusDays(now: int, days: int): (t: int)
    ensures days >= 0 ==> t >= now
    ensures days < 0 ==> t < now
  {
    now + days * SECONDS_PER_DAY
  }

  /** Some attempt from the `from`-th on generates an identifier that is not a key of the table. */
  predicate HasFreshCandidateFrom(keys: set<string>, draws: seq<seq<nat>>, from: nat)
    requires ValidAttempts(draws)
  {
    exists j | from <= j < |draws| :: Candidate(draws, j) !in keys
  }

  /** `shortId` is what the retry loop stops at: the first generated identifier not in use. */
  ghost predicate IsFirstFreshCandidate(keys: set<string>, draws: seq<seq<nat>>, shortId: string)
    requires ValidAttempts(draws)
  {
    exists j | 0 <= j < |draws| ::
      && Candidate(draws, j) == shortId
      && shortId !in keys
      && forall i | 0 <= i < j :: Candidate(draws, i) in keys
  }

  /** If the current attempt collides, an unused candidate still lies ahead. */
  lemma FreshCandidateLater(keys: set<string>, draws: seq<seq<nat>>, attempt: nat)
    requires ValidAttempts(draws)
    requires attempt < |draws|
    requires HasFreshCandidateFrom(keys, draws, attempt)
    requires Candidate(draws, attempt) in keys
    ensures attempt + 1 < |draws| && HasFreshCandidateFrom(keys, draws, attempt + 1)
  {
  }

  /** An unused candidate after a run of used ones is the one the retry loop stops at. */
  lemma FirstFreshCandidateAt(keys: set<string>, draws: seq<seq<nat>>, attempt: nat)
    requires ValidAttempts(draws)
    requires attempt < |draws|
    requires Candidate(draws, attempt) !in keys
    requires forall i | 0 <= i < attempt :: Candidate(draws, i) in keys
    ensures IsFirstFreshCandidate(keys, draws, Candidate(draws, attempt))
  {
  }

  /**
   * The cases in which createShortUrl may go on to generate an identifier:
   * findByLongUrl finds nothing, or it may return an expired row.
   */
  ghost predicate MayGenerate(m: Table, longUrl: string, now: int)
  {
    || (forall k | k in m :: m[k].longUrl != longUrl)
    || (exists k | k in m :: m[k].longUrl == longUrl && IsExpired(m[k], now))
  }

  /**
   * What createShortUrl(longUrl, ttlDays) may do to table m at instant now,
   * leaving table m2 and returning r, when validateUrl says `valid`:
   * - an invalid URL is refused and nothing is stored;
   * - otherwise either it returns the shortId of a row for this URL that is
   *   not expired, storing nothing,
   * - or (findByLongUrl found nothing or an expired row) it stores exactly one
   *   new row under the first generated identifier not in use, expiring
   *   ttlDays after now, and returns that identifier.
   */
  ghost predicate CreateOutcome(m: Table, m2: Table, valid: bool, longUrl: string, ttlDays: int, now: int,
                                draws: seq<seq<nat>>, r: Result<string, ServiceError>)
    requires ValidAttempts(draws)
  {
    if !valid then
      r == Failure(InvalidUrlFormat) && m2 == m
    else
      && r.Success?
      && (|| (&& m2 == m
              && r.value in m
              && m[r.value].longUrl == longUrl
              && !IsExpired(m[r.value], now))
          || (&& MayGenerate(m, longUrl, now)
              && IsFirstFreshCandidate(m.Keys, draws, r.value)
              && m2 == m[r.value := UrlData(r.value, longUrl, PlusDays(now, ttlDays))]))
  }

  /**
   * Every key of the table is a generated identifier. The service stores
   * rows only under identifiers it generated, so its operations keep this.
   */
  predicate AllShortIds(m: Table)
  {
    forall k | k in m :: IsShortId(k)
  }

  /**
   * On a table whose keys are all generated identifiers, whatever a create
   * returns has the identifier format, whether it reuses a row or stores one,
   * and the table keeps the property.
   */
  lemma CreateKeepsShortIds(m: Table, m2: Table, valid: bool, longUrl: string, ttlDays: int, now: int,
                            draws: seq<seq<nat>>, r: Result<string, ServiceError>)
    requires ValidAttempts(draws)
    requires CreateOutcome(m, m2, valid, longUrl, ttlDays, now, draws, r)
    requires AllShortIds(m)
    ensures r.Success? ==> IsShortId(r.value)
    ensures AllShortIds(m2)
  {
  }

  class UrlService {
    const repository: UrlDataRepository

    /** validateUrl's test; the URL parser is not part of this model. */
    const isValidUrl: string -> bool

    constructor (repository: UrlDataRepository, isValidUrl: string -> bool)
      ensures this.repository == repository && this.isValidUrl == isValidUrl
    {
      this.repository := repository;
      this.isValidUrl := isValidUrl;
    }

    /**
     * generateUniqueShortId: generate, ask existsByShortId, and retry until
     * the identifier is not in use. It stops at the first unused candidate,
     * which the draws must contain.
     */
    method GenerateUniqueShortId(draws: seq<seq<nat>>) returns (shortId: string)
      requires repository.Valid()
      requires ValidAttempts(draws)
      requires HasFreshCandidateFrom(repository.rows.Keys, draws, 0)
      ensures IsShortId(shortId)
      ensures !repository.ExistsByShortId(shortId)
      ensures IsFirstFreshCandidate(repository.rows.Keys, draws, shortId)
    {
      ghost var keys := repository.rows.Keys;
      var attempt := 0;
      shortId := GenerateRandomShortId(draws[attempt]);
      while repository.ExistsByShortId(shortId)
        invariant attempt < |draws|
        invariant shortId == Candidate(draws, attempt) && IsShortId(shortId)
        invariant forall i | 0 <= i < attempt :: Candidate(draws, i) in keys
        invariant HasFreshCandidateFrom(keys, draws, attempt)
        decreases |draws| - attempt
      {
        FreshCandidateLater(keys, draws, attempt);
        attempt := attempt + 1;
        shortId := GenerateRandomShortId(draws[attempt]);
      }
      FirstFreshCandidateAt(keys, draws, attempt);
    }

    /**
     * createShortUrl(longUrl, ttlDays): validate, reuse a live row for the
     * same URL, or store a new row under a fresh identifier.
     */
    method CreateShortUrl(longUrl: string, ttlDays: int, now: int, draws: seq<seq<nat>>)
      returns (r: Result<string, ServiceError>)
      requires repository.Valid()
      requires ValidAttempts(draws)
      requires isValidUrl(longUrl) && MayGenerate(repository.rows, longUrl, now) ==>
                 HasFreshCandidateFrom(repository.rows.Keys, draws, 0)
      modifies repository
      ensures repository.Valid()
      ensures CreateOutcome(old(repository.rows), repository.rows, isValidUrl(longUrl), longUrl, ttlDays, now, draws, r)
      ensures AllShortIds(old(repository.rows)) ==>
                AllShortIds(repository.rows) && (r.Success? ==> IsShortId(r.value))
    {
      if !isValidUrl(longUrl) {
        return Failure(InvalidUrlFormat);
      }
      var existing := repository.FindByLongUrl(longUrl);
      if existing.Some? && !IsExpired(existing.value, now) {
        assert repository.rows[existing.value.shortId] == existing.value;
        return Success(existing.value.shortId);
      }
      assert MayGenerate(repository.rows, longUrl, now) by {
        if existing.Some? {
          assert repository.rows[existing.value.shortId] == existing.value;
        }
      }
      var shortId := GenerateUniqueShortId(draws);
      var ttl := PlusDays(now, ttlDays);
      var saved := repository.Save(NewUrlData(shortId, longUrl, ttl));
      assert saved.Success?;
      r := Success(shortId);
      if AllShortIds(old(repository.rows)) {
        CreateKeepsShortIds(old(repository.rows), repository.rows, true, longUrl, ttlDays, now, draws, r);
      }
    }

    /** createShortUrl(longUrl): the same with the default TTL of 30 days. */
    method CreateShortUrlWithDefaultTtl(longUrl: string, now: int, draws: seq<seq<nat>>)
      returns (r: Result<string, ServiceError>)
      requires repository.Valid()
      requires ValidAttempts(draws)
      requires isValidUrl(longUrl) && MayGenerate(repository.rows, longUrl, now) ==>
                 HasFreshCandidateFrom(repository.rows.Keys, draws, 0)
      modifies repository
      ensures repository.Valid()
      ensures CreateOutcome(old(repository.rows), repository.rows, isValidUrl(longUrl), longUrl, DEFAULT_TTL_DAYS, now, draws, r)
      ensures AllShortIds(old(repository.rows)) ==>
                AllShortIds(repository.rows) && (r.Success? ==> IsShortId(r.value))
    {
      r := CreateShortUrl(longUrl, DEFAULT_TTL_DAYS, now, draws);
    }

    /**
     * getOriginalUrl: the long URL of a row that is not expired; an expired
     * row is deleted on the way and reported as absent.
     */
    method GetOriginalUrl(shortId: string, now: int) returns (r: Option<string>)
      requires repository.Valid()
      modifies repository
      ensures repository.Valid()
      ensures shortId !in old(repository.rows) ==>
                r == None && repository.rows == old(repository.rows)
      ensures shortId in old(repository.rows) && !IsExpired(old(repository.rows)[shortId], now) ==>
                r == Some(old(repository.rows)[shortId].longUrl) && repository.rows == old(repository.rows)
      ensures shortId in old(repository.rows) && IsExpired(old(repository.rows)[shortId], now) ==>
                r == None && repository.rows == old(repository.rows) - {shortId}
      ensures AllShortIds(old(repository.rows)) ==> AllShortIds(repository.rows)
    {
      var urlData := repository.FindByShortId(shortId);
      if urlData.Some? {
        var data := urlData.value;
        if !IsExpired(data, now) {
          return Some(data.longUrl);
        } else {
          repository.Delete(data);
          return None;
        }
      }
      return None;
    }

    /** getUrlData: findByShortId as it is, so an expired row is returned too. */
    function GetUrlData(shortId: string): (r: Option<UrlData>)
      reads repository
      requires repository.Valid()
      ensures r.Some? <==> repository.ExistsByShortId(shortId)
      ensures r.Some? ==> r.value == repository.rows[shortId]
    {
      repository.FindByShortId(shortId)
    }

    /**
     * getAllNonExpiredUrls: the rows findAllNonExpired lists at now. These
     * are the rows the entity calls valid, except the ones whose ttl is now.
     */
    function GetAllNonExpiredUrls(now: int): (r: set<UrlData>)
      reads repository
      ensures r <= repository.rows.Values
      ensures forall d | d in repository.rows.Values :: d in r <==> !IsExpired(d, now) && d.ttl != now
    {
      repository.FindAllNonExpired(now)
    }

    /** cleanupExpiredUrls: the bulk sweep at now, returning how many rows went. */
    method CleanupExpiredUrls(now: int) returns (count: nat)
      requires repository.Valid()
      modifies repository
      ensures repository.Valid()
      ensures repository.rows == Live(old(repository.rows), now)
      ensures count == |Expired(old(repository.rows), now)|
      ensures count == |old(repository.rows)| - |repository.rows|
      ensures AllShortIds(old(repository.rows)) ==> AllShortIds(repository.rows)
    {
      count := repository.DeleteExpiredEntries(now);
    }

    /**
     * A short URL created with a non-negative TTL resolves, at the same
     * instant, to the URL it was created for, and resolving changes nothing:
     * the final table is the one the create left.
     */
    method CreateThenResolve(longUrl: string, ttlDays: int, now: int, draws: seq<seq<nat>>)
      returns (created: Result<string, ServiceError>, resolved: Option<string>)
      requires repository.Valid()
      requires ValidAttempts(draws)
      requires isValidUrl(longUrl) && ttlDays >= 0
      requires MayGenerate(repository.rows, longUrl, now) ==> HasFreshCandidateFrom(repository.rows.Keys, draws, 0)
      modifies repository
      ensures created.Success? && resolved == Some(longUrl)
      ensures CreateOutcome(old(repository.rows), repository.rows, true, longUrl, ttlDays, now, draws, created)
    {
      created := CreateShortUrl(longUrl, ttlDays, now, draws);
      CreatedIdResolves(old(repository.rows), repository.rows, longUrl, ttlDays, now, draws, created);
      resolved := GetOriginalUrl(created.value, now);
    }
  }

  /**
   * The identifier a successful create returns names, in the new table, a
   * row for the URL that is not expired at that instant, when ttlDays >= 0.
   */
  lemma CreatedIdResolves(m: Table, m2: Table, longUrl: string, ttlDays: int, now: int,
                          draws: seq<seq<nat>>, r: Result<string, ServiceError>)
    requires ValidAttempts(draws)
    requires CreateOutcome(m, m2, true, longUrl, ttlDays, now, draws, r)
    requires ttlDays >= 0
    ensures r.Success? && r.value in m2
    ensures m2[r.value].longUrl == longUrl && !IsExpired(m2[r.value], now)
  {
  }

  /**
   * A new row is stored only under an identifier that was not a key before,
   * with the identifier format, and every other row is kept as it was.
   */
  lemma CreateStoresFreshRow(m: Table, m2: Table, longUrl: string, ttlDays: int, now: int,
                             draws: seq<seq<nat>>, r: Result<string, ServiceError>)
    requires ValidAttempts(draws)
    requires CreateOutcome(m, m2, true, longUrl, ttlDays, now, draws, r)
    requires m2 != m
    ensures r.Success? && r.value !in m && IsShortId(r.value)
    ensures m2.Keys == m.Keys + {r.value}
    ensures forall k | k in m :: m2[k] == m[k]
    ensures m2[r.value] == UrlData(r.value, longUrl, PlusDays(now, ttlDays))
  {
  }

  /**
   * Creating the same URL again at the same instant returns the same
   * identifier and stores nothing, provided the first create left only one
   * row for that URL (an older expired row for the URL could otherwise be
   * the one findByLongUrl returns).
   */
  lemma RepeatedCreateReturnsSameId(m: Table, m1: Table, m2: Table, longUrl: string, ttlDays: int,
                                    ttlDays2: int, now: int, draws: seq<seq<nat>>, draws2: seq<seq<nat>>,
                                    id: string, r2: Result<string, ServiceError>)
    requires ValidAttempts(draws) && ValidAttempts(draws2)
    requires ttlDays >= 0
    requires CreateOutcome(m, m1, true, longUrl, ttlDays, now, draws, Success(id))
    requires forall k | k in m1 && m1[k].longUrl == longUrl :: k == id
    requires CreateOutcome(m1, m2, true, longUrl, ttlDays2, now, draws2, r2)
    ensures r2 == Success(id) && m2 == m1
  {
    CreatedIdResolves(m, m1, longUrl, ttlDays, now, draws, Success(id));
    assert !MayGenerate(m1, longUrl, now) by {
      assert m1[id].longUrl == longUrl;
    }
  }

  /**
   * A row created with ttlDays == 0 expires at its creation instant: it is
   * reported as not found at every later instant.
   */
  lemma ZeroTtlExpiresRightAfterCreation(m: Table, m2: Table, longUrl: string, now: int, later: int,
                                         draws: seq<seq<nat>>, id: string)
    requires ValidAttempts(draws)
    requires CreateOutcome(m, m2, true, longUrl, 0, now, draws, Success(id))
    requires id !in m
    requires later > now
    ensures id in m2 && IsExpired(m2[id], later)
  {
  }
}
