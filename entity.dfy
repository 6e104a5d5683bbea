/**
 * The persisted record of the URL shortener: a short identifier, the long
 * URL it stands for, and the instant (ttl) after which it expires.
 *
 * Instants are integers (seconds on the application's local clock); the
 * clock itself is never read here, every check takes the current instant
 * `now` as a parameter.
 */
module Entity {

  /**
   * One row of the url_data table: shortId, longUrl and ttl. Neither string
   * nor instant can be null here.
   */
  datatype UrlData = UrlData(shortId: string, longUrl: string, ttl: int)

  /** The three-argument constructor: the new record carries exactly its arguments. */
  function NewUrlData(shortId: string, longUrl: string, ttl: int): (d: UrlData)
    ensures d.shortId == shortId && d.longUrl == longUrl && d.ttl == ttl
  {
    UrlData(shortId, longUrl, ttl)
  }

  /** The entity's own expiry check `now.isAfter(ttl)`. */
  predicate IsExpired(d: UrlData, now: int)
    ensures IsExpired(d, now) <==> d.ttl < now
  {
    now > d.ttl
  }

  /** A record is still valid at the very instant of its ttl and expired at every later one. */
  lemma ValidUntilTtl(d: UrlData)
    ensures !IsExpired(d, d.ttl)
    ensures forall later | later > d.ttl :: IsExpired(d, later)
  {
  }

  /** Once expired, a record stays expired: the check is monotone in time. */
  lemma ExpiryIsMonotone(d: UrlData, now: int, later: int)
    requires IsExpired(d, now)
    requires now <= later
    ensures IsExpired(d, later)
  {
  }
}
