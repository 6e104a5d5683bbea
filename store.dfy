/**
 * The url_data table as a value, and the filters that the repository's
 * JPQL queries apply to it. Rows are keyed by shortId, the column the
 * schema declares unique, so the unique constraint is the map's key.
 */
module Store {
  import opened Entity

  /** Width of the short_id column. */
  const MAX_SHORT_ID_LENGTH: nat := 10

  type Table = map<string, UrlData>

  /** What the schema guarantees of every stored row: it sits under its own shortId, which fits the column. */
  predicate WellFormed(m: Table)
  {
    forall k | k in m :: m[k].shortId == k && |k| <= MAX_SHORT_ID_LENGTH
  }

  /**
   * In a well-formed table every stored record sits under its own shortId,
   * so no two records share one, and that shortId fits the column.
   */
  lemma WellFormedRecords(m: Table)
    requires WellFormed(m)
    ensures forall d | d in m.Values :: d.shortId in m && m[d.shortId] == d && |d.shortId| <= MAX_SHORT_ID_LENGTH
    ensures forall d1, d2 | d1 in m.Values && d2 in m.Values :: d1.shortId == d2.shortId ==> d1 == d2
  {
  }

  /** The queries' notion of a live row: `u.ttl > :currentTime`. */
  predicate LiveAt(d: UrlData, t: int)
  {
    d.ttl > t
  }

  /** The queries' notion of an expired row: `u.ttl <= :currentTime`. */
  predicate ExpiredAt(d: UrlData, t: int)
  {
    d.ttl <= t
  }

  /** The rows that findAllNonExpired selects. */
  function Live(m: Table, t: int): Table
  {
    map k | k in m && LiveAt(m[k], t) :: m[k]
  }

  /** The rows that findAllExpired selects and deleteExpiredEntries removes. */
  function Expired(m: Table, t: int): Table
  {
    map k | k in m && ExpiredAt(m[k], t) :: m[k]
  }

  /**
   * The two queries split the table: every row is in exactly one of them,
   * unchanged, and their sizes add up to the size of the table.
   */
  lemma Partition(m: Table, t: int)
    ensures Live(m, t).Keys !! Expired(m, t).Keys
    ensures Live(m, t).Keys + Expired(m, t).Keys == m.Keys
    ensures forall k | k in Live(m, t) :: Live(m, t)[k] == m[k] && LiveAt(m[k], t)
    ensures forall k | k in Expired(m, t) :: Expired(m, t)[k] == m[k] && ExpiredAt(m[k], t)
    ensures |Live(m, t)| + |Expired(m, t)| == |m|
  {
  }

  /** The records findAllNonExpired lists are exactly the stored records live at t. */
  lemma LiveValues(m: Table, t: int)
    ensures forall d :: d in Live(m, t).Values <==> d in m.Values && LiveAt(d, t)
  {
    forall d | d in m.Values && LiveAt(d, t) ensures d in Live(m, t).Values {
      var k :| k in m && m[k] == d;
      assert Live(m, t)[k] == d;
    }
  }

  /** The records findAllExpired lists are exactly the stored records expired at t. */
  lemma ExpiredValues(m: Table, t: int)
    ensures forall d :: d in Expired(m, t).Values <==> d in m.Values && ExpiredAt(d, t)
  {
    forall d | d in m.Values && ExpiredAt(d, t) ensures d in Expired(m, t).Values {
      var k :| k in m && m[k] == d;
      assert Expired(m, t)[k] == d;
    }
  }

  /** Filtering keeps the table's shape: the live part of a well-formed table is well-formed. */
  lemma LiveIsWellFormed(m: Table, t: int)
    requires WellFormed(m)
    ensures WellFormed(Live(m, t))
  {
  }

  /**
   * Sweeping twice at the same instant is sweeping once: after the expired
   * rows are gone, nothing is expired any more and the live rows stay.
   */
  lemma SweepIsIdempotent(m: Table, t: int)
    ensures Expired(Live(m, t), t) == map[]
    ensures Live(Live(m, t), t) == Live(m, t)
  {
  }

  /** A row live at a later instant was live at every earlier one. */
  lemma LiveShrinksOverTime(m: Table, t: int, later: int)
    requires t <= later
    ensures Live(m, later).Keys <= Live(m, t).Keys
    ensures Expired(m, t).Keys <= Expired(m, later).Keys
  {
  }

  /**
   * The queries and the entity disagree at exactly one instant: at t == ttl
   * the queries call a row expired while the entity still calls it valid.
   * At every other instant they agree.
   */
  lemma ExpiryBoundary(d: UrlData, t: int)
    ensures (ExpiredAt(d, t) && !IsExpired(d, t)) <==> t == d.ttl
    ensures t != d.ttl ==> (ExpiredAt(d, t) <==> IsExpired(d, t))
    ensures LiveAt(d, t) ==> !IsExpired(d, t)
  {
  }
}
