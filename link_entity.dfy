/**
 * The Link entity. `LinkRow` is the value of one table row, which is also a snapshot of an
 * entity's fields; the class `Link` is the managed entity object the service changes
 * through its setters and whose @PostLoad hook runs on every load.
 */
module LinkEntity {
  import opened Wrappers
  import opened JavaTypes

  /** One row: timestamps are integer seconds; `version` is null until the first persist. */
  datatype LinkRow = LinkRow(
    originalLink: string,
    shortLink: string,
    numberOfUses: int,
    lastAccess: Option<int>,
    expirationTime: Option<int>,
    usageLimit: Option<int32>,
    ttl: Option<int>,
    rollingExpiration: bool,
    version: Option<nat>)

  /** The fields after @PostLoad ran at time `now`. */
  function PostLoaded(row: LinkRow, now: int): (r: LinkRow)
    ensures r.numberOfUses == row.numberOfUses + 1
    ensures r.lastAccess == Some(now)
    ensures r.usageLimit.Some? <==> row.usageLimit.Some?
    ensures row.usageLimit.Some? && row.usageLimit.value > INT32_MIN ==> r.usageLimit.value == row.usageLimit.value - 1
    ensures r.originalLink == row.originalLink && r.shortLink == row.shortLink
    ensures r.expirationTime == row.expirationTime && r.version == row.version
    ensures r.ttl == row.ttl && r.rollingExpiration == row.rollingExpiration
  {
    row.(
      lastAccess := Some(now),
      numberOfUses := row.numberOfUses + 1,
      usageLimit := if row.usageLimit.Some? then Some(Decrement32(row.usageLimit.value)) else None)
  }

  /** The JPA entity. */
  class Link {
    var originalLink: string
    var shortLink: string
    var numberOfUses: int
    var lastAccess: Option<int>
    var expirationTime: Option<int>
    var usageLimit: Option<int32>
    var ttl: Option<int>
    var rollingExpiration: bool
    var version: Option<nat>

    /** The entity's fields as a value. */
    function Row(): LinkRow
      reads this
    {
      LinkRow(originalLink, shortLink, numberOfUses, lastAccess, expirationTime, usageLimit,
        ttl, rollingExpiration, version)
    }

    /** `new Link()`: a transient entity; Java's null strings and counters read as empty
        and zero, and every path that saves one sets them first. */
    constructor ()
      ensures Row() == LinkRow("", "", 0, None, None, None, None, false, None)
    {
      originalLink, shortLink, numberOfUses := "", "", 0;
      lastAccess, expirationTime, usageLimit, ttl := None, None, None, None;
      rollingExpiration, version := false, None;
    }

    /** An entity holding a stored row's fields as they are, without the @PostLoad hook. */
    constructor Hydrate(row: LinkRow)
      ensures Row() == row
    {
      originalLink, shortLink, numberOfUses := row.originalLink, row.shortLink, row.numberOfUses;
      lastAccess, expirationTime, usageLimit, ttl := row.lastAccess, row.expirationTime, row.usageLimit, row.ttl;
      rollingExpiration, version := row.rollingExpiration, row.version;
    }

    /** Loading a row: hydrate the fields, then run the @PostLoad hook. */
    constructor Load(row: LinkRow, now: int)
      ensures Row() == PostLoaded(row, now)
    {
      originalLink, shortLink, numberOfUses := row.originalLink, row.shortLink, row.numberOfUses;
      lastAccess, expirationTime, usageLimit, ttl := row.lastAccess, row.expirationTime, row.usageLimit, row.ttl;
      rollingExpiration, version := row.rollingExpiration, row.version;
      new;
      PostLoad(now);
    }

    /** @PostLoad: stamp the access time, count the use, and spend one unit of a usage
        limit when there is one. */
    method PostLoad(now: int)
      modifies this
      ensures Row() == PostLoaded(old(Row()), now)
    {
      lastAccess := Some(now);
      numberOfUses := numberOfUses + 1;
      if usageLimit.Some? {
        usageLimit := Some(Decrement32(usageLimit.value));
      }
    }
  }
}
