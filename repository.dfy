/**
 * UrlDataRepository: the table of UrlData rows together with the derived
 * queries, the custom JPQL queries and the inherited save and delete.
 */
module Repository {
  import opened Wrappers
  import opened Entity
  import opened Store

  /** Why the database refuses to insert a row. */
  datatype StoreError = DuplicateShortId | ShortIdTooLong

  class UrlDataRepository {
    /** The rows, keyed by shortId. */
    var rows: Table

    /** The schema's constraints hold of every row. */
    ghost predicate Valid()
      reads this
    {
      WellFormed(rows)
    }

    constructor ()
      ensures Valid() && rows == map[]
    {
      rows := map[];
    }

    /** findByShortId: the row whose shortId column equals the argument, expired or not. */
    function FindByShortId(shortId: string): (r: Option<UrlData>)
      reads this
      requires Valid()
      ensures r.Some? <==> exists d | d in rows.Values :: d.shortId == shortId
      ensures r.Some? ==> r.value in rows.Values && r.value.shortId == shortId
    {
      if shortId in rows then Some(rows[shortId]) else None
    }

    /** existsByShortId: answers whether findByShortId finds a row; neither looks at expiry. */
    function ExistsByShortId(shortId: string): (b: bool)
      reads this
      requires Valid()
      ensures b <==> FindByShortId(shortId).Some?
    {
      shortId in rows
    }

    /**
     * findByLongUrl: some row holding this URL, if there is one. Several rows
     * may hold the same URL; which one is returned is not fixed.
     */
    method FindByLongUrl(longUrl: string) returns (r: Option<UrlData>)
      ensures r.Some? ==> r.value in rows.Values && r.value.longUrl == longUrl
      ensures r.None? <==> forall d | d in rows.Values :: d.longUrl != longUrl
    {
      if k :| k in rows && rows[k].longUrl == longUrl {
        r := Some(rows[k]);
      } else {
        r := None;
      }
    }

    /** findAllNonExpired: the rows with `ttl > currentTime`. */
    function FindAllNonExpired(currentTime: int): (r: set<UrlData>)
      reads this
      ensures forall d :: d in r <==> d in rows.Values && LiveAt(d, currentTime)
    {
      LiveValues(rows, currentTime);
      Live(rows, currentTime).Values
    }

    /** findAllExpired: the rows with `ttl <= currentTime`. */
    function FindAllExpired(currentTime: int): (r: set<UrlData>)
      reads this
      ensures forall d :: d in r <==> d in rows.Values && ExpiredAt(d, currentTime)
    {
      ExpiredValues(rows, currentTime);
      Expired(rows, currentTime).Values
    }

    /** findNonExpiredByShortId: the row with this shortId, if it is live at currentTime. */
    function FindNonExpiredByShortId(shortId: string, currentTime: int): (r: Option<UrlData>)
      reads this
      requires Valid()
      ensures r.Some? <==> exists d | d in rows.Values :: d.shortId == shortId && LiveAt(d, currentTime)
      ensures r.Some? ==> r.value in rows.Values && r.value.shortId == shortId && LiveAt(r.value, currentTime)
    {
      if shortId in rows && LiveAt(rows[shortId], currentTime) then Some(rows[shortId]) else None
    }

    /**
     * save of a new entity: an INSERT. The database refuses a duplicate
     * shortId (the unique constraint) and one wider than the column; the
     * table is then unchanged.
     */
    method Save(d: UrlData) returns (r: Result<UrlData, StoreError>)
      requires Valid()
      modifies this
      ensures Valid()
      ensures r.Success? <==> d.shortId !in old(rows) && |d.shortId| <= MAX_SHORT_ID_LENGTH
      ensures r.Success? ==> r.value == d && rows == old(rows)[d.shortId := d]
      ensures r.Failure? ==> rows == old(rows)
      ensures d.shortId in old(rows) ==> r == Failure(DuplicateShortId)
    {
      if d.shortId in rows {
        r := Failure(DuplicateShortId);
      } else if |d.shortId| > MAX_SHORT_ID_LENGTH {
        r := Failure(ShortIdTooLong);
      } else {
        rows := rows[d.shortId := d];
        r := Success(d);
      }
    }

    /** delete: removes the entity's row; deleting a row that is not there changes nothing. */
    method Delete(d: UrlData)
      requires Valid()
      modifies this
      ensures Valid()
      ensures rows == old(rows) - {d.shortId}
    {
      rows := rows - {d.shortId};
    }

    /**
     * deleteExpiredEntries: removes every row with `ttl <= currentTime`,
     * keeps every other row as it was, and returns how many it removed.
     */
    method DeleteExpiredEntries(currentTime: int) returns (count: nat)
      requires Valid()
      modifies this
      ensures Valid()
      ensures rows == Live(old(rows), currentTime)
      ensures count == |Expired(old(rows), currentTime)|
      ensures count == |old(rows)| - |rows|
      ensures FindAllExpired(currentTime) == {}
    {
      Partition(rows, currentTime);
      SweepIsIdempotent(rows, currentTime);
      LiveIsWellFormed(rows, currentTime);
      count := |Expired(rows, currentTime)|;
      rows := Live(rows, currentTime);
    }
  }

  /** The two queries split the stored rows between them. */
  lemma QueriesPartitionRows(repo: UrlDataRepository, currentTime: int)
    requires repo.Valid()
    ensures repo.FindAllNonExpired(currentTime) !! repo.FindAllExpired(currentTime)
    ensures repo.FindAllNonExpired(currentTime) + repo.FindAllExpired(currentTime) == repo.rows.Values
  {
  }

  /** findNonExpiredByShortId is findByShortId followed by the live filter of findAllNonExpired. */
  lemma NonExpiredLookupAgreesWithQueries(repo: UrlDataRepository, shortId: string, currentTime: int)
    requires repo.Valid()
    ensures repo.FindNonExpiredByShortId(shortId, currentTime).Some?
      <==> repo.FindByShortId(shortId).Some? && repo.FindByShortId(shortId).value in repo.FindAllNonExpired(currentTime)
    ensures repo.FindNonExpiredByShortId(shortId, currentTime).Some? ==>
      repo.FindNonExpiredByShortId(shortId, currentTime) == repo.FindByShortId(shortId)
  {
  }
}
