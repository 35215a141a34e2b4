/**
 * The link table and the repository over it (both LinkRepository interfaces in one): a map
 * from originalLink (the id) to rows, with shortLink unique. Finders, exists checks and the
 * rank query are functions of the table; save, delete, deleteAllExpired and the counter
 * update are methods of the repository object that owns it.
 */
module LinkStore {
  import opened Wrappers
  import opened LinkEntity

  type Table = map<string, LinkRow>

  /** The table's constraints: each row is stored under its originalLink (@Id, so unique
      and non-null), has been persisted (it carries a version), and no two rows share a
      shortLink (unique = true). */
  ghost predicate ValidTable(t: Table) {
    && (forall k :: k in t ==> t[k].originalLink == k && t[k].version.Some?)
    && (forall k1, k2 :: k1 in t && k2 in t && t[k1].shortLink == t[k2].shortLink ==> k1 == k2)
  }

  /** existsByShortLink. */
  predicate ExistsByShortLink(t: Table, c: string) {
    exists k :: k in t && t[k].shortLink == c
  }

  /** existsByOriginalLink: a look-up of the id column. */
  predicate ExistsByOriginalLink(t: Table, u: string) {
    u in t
  }

  /** The row findByShortLink loads: the unique row with that code, or empty. */
  function FindRowByShortLink(t: Table, c: string): (r: Option<LinkRow>)
    requires ValidTable(t)
    ensures r.Some? <==> ExistsByShortLink(t, c)
    ensures r.Some? ==> r.value.shortLink == c && r.value.originalLink in t && t[r.value.originalLink] == r.value
  {
    if ExistsByShortLink(t, c) then
      var k :| k in t && t[k].shortLink == c;
      Some(t[k])
    else None
  }

  /** The row findById / findByOriginalLink loads: the unique row with that originalLink,
      or empty. */
  function FindRowByOriginalLink(t: Table, u: string): (r: Option<LinkRow>)
    requires ValidTable(t)
    ensures r.Some? <==> (exists k :: k in t && t[k].originalLink == u)
    ensures r.Some? <==> ExistsByOriginalLink(t, u)
    ensures r.Some? ==> r.value.originalLink == u && r.value in t.Values
  {
    if u in t then Some(t[u]) else None
  }

  /** The projection the statistic query returns. */
  datatype LinkStatistic = LinkStatistic(numberOfUses: int, rank: int)

  /** The rows counted by the rank sub-query: strictly more uses than `uses`. */
  function GreaterKeys(t: Table, uses: int): set<string> {
    set k | k in t && t[k].numberOfUses > uses
  }

  /** `COUNT(*) + 1` over the rows with strictly more uses. */
  function Rank(t: Table, uses: int): nat {
    1 + |GreaterKeys(t, uses)|
  }

  /** findStatisticByLink / getStatisticByLink: the use count of the row with that code and
      its rank among all rows; empty exactly when no row has that code. */
  function StatisticByLink(t: Table, c: string): (r: Option<LinkStatistic>)
    requires ValidTable(t)
    ensures r.Some? <==> ExistsByShortLink(t, c)
    ensures r.Some? ==> r.value.numberOfUses == FindRowByShortLink(t, c).value.numberOfUses
    ensures r.Some? ==> 1 <= r.value.rank <= |t|
  {
    match FindRowByShortLink(t, c)
    case None => None
    case Some(row) =>
      RankWithin(t, row.originalLink);
      Some(LinkStatistic(row.numberOfUses, Rank(t, row.numberOfUses)))
  }

  lemma SubsetCardinality<T>(a: set<T>, b: set<T>)
    requires a <= b
    ensures |a| <= |b|
    ensures a < b ==> |a| < |b|
  {
    assert b == a + (b - a);
    assert a !! (b - a);
    if a < b {
      var x :| x in b && x !in a;
      assert x in b - a;
    }
  }

  /** A stored row ranks between 1 and the number of rows. */
  lemma RankWithin(t: Table, k: string)
    requires k in t
    ensures 1 <= Rank(t, t[k].numberOfUses) <= |t|
  {
    var g := GreaterKeys(t, t[k].numberOfUses);
    assert g <= t.Keys - {k};
    SubsetCardinality(g, t.Keys - {k});
  }

  /** The rank orders rows by use count, descending: more uses give a strictly smaller rank,
      and rows with equal counts share a rank. */
  lemma RankOrder(t: Table, a: string, b: string)
    requires a in t && b in t
    ensures t[a].numberOfUses > t[b].numberOfUses ==> Rank(t, t[a].numberOfUses) < Rank(t, t[b].numberOfUses)
    ensures t[a].numberOfUses == t[b].numberOfUses ==> Rank(t, t[a].numberOfUses) == Rank(t, t[b].numberOfUses)
  {
    var ga, gb := GreaterKeys(t, t[a].numberOfUses), GreaterKeys(t, t[b].numberOfUses);
    if t[a].numberOfUses > t[b].numberOfUses {
      assert a in gb && a !in ga;
      assert ga < gb;
      SubsetCardinality(ga, gb);
    }
  }

  /** Rank 1 means no row has more uses. */
  lemma RankOneIsTop(t: Table, k: string)
    requires k in t
    ensures Rank(t, t[k].numberOfUses) == 1 <==> forall j :: j in t ==> t[j].numberOfUses <= t[k].numberOfUses
  {
    var g := GreaterKeys(t, t[k].numberOfUses);
    if Rank(t, t[k].numberOfUses) != 1 {
      var j :| j in g;
      assert t[j].numberOfUses > t[k].numberOfUses;
    } else {
      assert g == {};
      forall j | j in t ensures t[j].numberOfUses <= t[k].numberOfUses {
        assert j !in g;
      }
    }
  }

  function Row(u: string, c: string, uses: int): LinkRow {
    LinkRow(u, c, uses, None, None, None, None, false, Some(0))
  }

  /** Three stored rows with the given codes and use counts. */
  function Three(c1: string, n1: int, c2: string, n2: int, c3: string, n3: int): (t: Table)
    requires c1 != c2 && c1 != c3 && c2 != c3
    ensures ValidTable(t)
  {
    var t := map["1" := Row("1", c1, n1), "2" := Row("2", c2, n2), "3" := Row("3", c3, n3)];
    assert t.Keys == {"1", "2", "3"};
    assert t["1"].shortLink == c1 && t["2"].shortLink == c2 && t["3"].shortLink == c3;
    t
  }

  /** The statistic of a stored row: its own use count and the rank of that count. */
  lemma StatisticOfRow(t: Table, k: string)
    requires ValidTable(t) && k in t
    ensures StatisticByLink(t, t[k].shortLink) == Some(LinkStatistic(t[k].numberOfUses, Rank(t, t[k].numberOfUses)))
  {
    var found := FindRowByShortLink(t, t[k].shortLink).value;
    assert t[found.originalLink].shortLink == t[k].shortLink;
  }

  /** 1 when a row with `other` uses outranks a count of `uses`, else 0. */
  function Above(other: int, uses: int): nat {
    if other > uses then 1 else 0
  }

  /** Removing one row removes it from the rows above a count exactly when it was above. */
  lemma GreaterWithout(t: Table, k: string, uses: int)
    requires k in t
    ensures |GreaterKeys(t, uses)| == |GreaterKeys(t - {k}, uses)| + Above(t[k].numberOfUses, uses)
  {
    var g, h := GreaterKeys(t, uses), GreaterKeys(t - {k}, uses);
    if t[k].numberOfUses > uses {
      assert g == h + {k};
    } else {
      assert g == h;
    }
  }

  /** In a table of three rows, the rank of a count is one plus the number of rows above it. */
  lemma ThreeRank(t: Table, k1: string, k2: string, k3: string, uses: int)
    requires t.Keys == {k1, k2, k3} && k1 != k2 && k1 != k3 && k2 != k3
    ensures Rank(t, uses) == 1 + Above(t[k1].numberOfUses, uses) + Above(t[k2].numberOfUses, uses) + Above(t[k3].numberOfUses, uses)
  {
    var t1 := t - {k1};
    var t2 := t1 - {k2};
    GreaterWithout(t, k1, uses);
    GreaterWithout(t1, k2, uses);
    GreaterWithout(t2, k3, uses);
    assert GreaterKeys(t2 - {k3}, uses) == {};
  }

  /** In a three-row table, each code's statistic is its row's count and one plus the number
      of rows with more uses. */
  lemma ThreeStatistic(c1: string, n1: int, c2: string, n2: int, c3: string, n3: int)
    requires c1 != c2 && c1 != c3 && c2 != c3
    ensures var t := Three(c1, n1, c2, n2, c3, n3);
      StatisticByLink(t, c1) == Some(LinkStatistic(n1, 1 + Above(n2, n1) + Above(n3, n1))) &&
      StatisticByLink(t, c2) == Some(LinkStatistic(n2, 1 + Above(n1, n2) + Above(n3, n2))) &&
      StatisticByLink(t, c3) == Some(LinkStatistic(n3, 1 + Above(n1, n3) + Above(n2, n3)))
  {
    var t := Three(c1, n1, c2, n2, c3, n3);
    assert t.Keys == {"1", "2", "3"};
    StatisticOfRow(t, "1");
    StatisticOfRow(t, "2");
    StatisticOfRow(t, "3");
    ThreeRank(t, "1", "2", "3", n1);
    ThreeRank(t, "1", "2", "3", n2);
    ThreeRank(t, "1", "2", "3", n3);
  }

  /** Counts {10, 20, 5} rank 2, 1 and 3. */
  lemma RankExamples()
    ensures var t := Three("a", 10, "b", 20, "c", 5);
      StatisticByLink(t, "a") == Some(LinkStatistic(10, 2)) &&
      StatisticByLink(t, "b") == Some(LinkStatistic(20, 1)) &&
      StatisticByLink(t, "c") == Some(LinkStatistic(5, 3))
  {
    ThreeStatistic("a", 10, "b", 20, "c", 5);
  }

  /** Counts {20, 20, 5}: the tied rows share rank 1 and the last is third, not second:
      ties push the following ranks down. */
  lemma RankTieExample()
    ensures var t := Three("a", 20, "b", 20, "c", 5);
      StatisticByLink(t, "a") == Some(LinkStatistic(20, 1)) &&
      StatisticByLink(t, "b") == Some(LinkStatistic(20, 1)) &&
      StatisticByLink(t, "c") == Some(LinkStatistic(5, 3))
  {
    ThreeStatistic("a", 20, "b", 20, "c", 5);
  }

  /** The deleteAllExpired condition: a non-null expiration time strictly before `now`. */
  predicate Expired(row: LinkRow, now: int) {
    row.expirationTime.Some? && row.expirationTime.value < now
  }

  function ExpiredKeys(t: Table, now: int): set<string> {
    set k | k in t && Expired(t[k], now)
  }

  /** The table after deleteAllExpired(now): expired rows gone, every other row untouched,
      and exactly as many rows fewer as were expired. */
  function WithoutExpired(t: Table, now: int): (r: Table)
    ensures forall k :: k in r <==> k in t && !Expired(t[k], now)
    ensures forall k :: k in r ==> r[k] == t[k]
    ensures |r| == |t| - |ExpiredKeys(t, now)|
  {
    var r := map k | k in t && !Expired(t[k], now) :: t[k];
    assert t.Keys == r.Keys + ExpiredKeys(t, now);
    assert r.Keys !! ExpiredKeys(t, now);
    r
  }

  /** A second clean-up with the same `now` finds nothing to delete and changes nothing;
      and the clean-up keeps the table's constraints. */
  lemma CleanUpIdempotent(t: Table, now: int)
    ensures ExpiredKeys(WithoutExpired(t, now), now) == {}
    ensures WithoutExpired(WithoutExpired(t, now), now) == WithoutExpired(t, now)
    ensures ValidTable(t) ==> ValidTable(WithoutExpired(t, now))
  {
    var r := WithoutExpired(t, now);
    assert ExpiredKeys(r, now) == {};
  }

  /** A table where nothing has expired is left as it is. */
  lemma CleanUpNothingExpired(t: Table, now: int)
    requires forall k :: k in t ==> !Expired(t[k], now)
    ensures ExpiredKeys(t, now) == {} && WithoutExpired(t, now) == t
  {
    assert ExpiredKeys(t, now) == {};
  }

  /** The table after `update Link set numberOfUses = numberOfUses + 1 where shortLink = c`. */
  function IncrementedUses(t: Table, c: string): (r: Table)
    ensures r.Keys == t.Keys
    ensures forall k :: k in t ==> r[k].numberOfUses == t[k].numberOfUses + (if t[k].shortLink == c then 1 else 0)
    ensures forall k :: k in t ==> r[k] == t[k].(numberOfUses := r[k].numberOfUses)
  {
    map k | k in t :: if t[k].shortLink == c then t[k].(numberOfUses := t[k].numberOfUses + 1) else t[k]
  }

  /** The counter update adds exactly one use to the row with that code and changes nothing
      else; an unknown code leaves the table as it is. The bulk update bypasses @Version. */
  lemma IncrementCountsOneUse(t: Table, c: string)
    requires ValidTable(t)
    ensures ValidTable(IncrementedUses(t, c))
    ensures !ExistsByShortLink(t, c) ==> IncrementedUses(t, c) == t
    ensures ExistsByShortLink(t, c) ==>
      var row := FindRowByShortLink(t, c).value;
      FindRowByShortLink(IncrementedUses(t, c), c) == Some(row.(numberOfUses := row.numberOfUses + 1)) &&
      IncrementedUses(t, c) == t[row.originalLink := row.(numberOfUses := row.numberOfUses + 1)]
  {
    var r := IncrementedUses(t, c);
    if !ExistsByShortLink(t, c) {
      assert forall k :: k in t ==> t[k].shortLink != c;
      assert r == t;
    } else {
      var row := FindRowByShortLink(t, c).value;
      var u := row.originalLink;
      assert r == t[u := row.(numberOfUses := row.numberOfUses + 1)];
      assert r[u].shortLink == c;
    }
  }

  /** What JpaRepository.save accepts. An entity without a version is new and is inserted:
      its id and its short code must both be unused. An entity with a version is merged
      over the row with its id: that row must exist with the same version (no intervening
      update), and no other row may hold its short code. Anything else is a
      DataIntegrityViolationException or an optimistic-lock failure. */
  predicate SaveAccepted(t: Table, row: LinkRow) {
    if row.version.None? then
      row.originalLink !in t && !ExistsByShortLink(t, row.shortLink)
    else
      && row.originalLink in t
      && t[row.originalLink].version == row.version
      && forall k :: k in t && t[k].shortLink == row.shortLink ==> k == row.originalLink
  }

  /** The row as written: version 0 when inserted, one more when updated. */
  function Persisted(row: LinkRow): (r: LinkRow)
    ensures r == row.(version := r.version)
    ensures r.version == Some(if row.version.None? then 0 else row.version.value + 1)
  {
    row.(version := Some(if row.version.None? then 0 else row.version.value + 1))
  }

  /** An accepted save keeps the table's constraints. */
  lemma SaveKeepsTableValid(t: Table, row: LinkRow)
    requires ValidTable(t) && SaveAccepted(t, row)
    ensures ValidTable(t[row.originalLink := Persisted(row)])
    ensures ExistsByShortLink(t[row.originalLink := Persisted(row)], row.shortLink)
  {
    var r := t[row.originalLink := Persisted(row)];
    assert r[row.originalLink].shortLink == row.shortLink;
  }

  /** A new record that repeats a stored originalLink or shortLink is refused. */
  lemma DuplicateRejected(t: Table, row: LinkRow)
    requires row.version.None?
    requires ExistsByOriginalLink(t, row.originalLink) || ExistsByShortLink(t, row.shortLink)
    ensures !SaveAccepted(t, row)
  {
  }

  /** The repository object: the table it owns and the operations that change it. */
  class LinkRepository {
    var table: Table

    ghost predicate Valid()
      reads this
    {
      ValidTable(table)
    }

    constructor ()
      ensures Valid() && table == map[]
    {
      table := map[];
    }

    /** findByShortLink: a freshly loaded entity (its @PostLoad hook has run) for the row
        with that code, or null. */
    method FindByShortLink(c: string, now: int) returns (link: Link?)
      requires Valid()
      ensures link == null <==> !ExistsByShortLink(table, c)
      ensures link != null ==> fresh(link) && link.Row() == PostLoaded(FindRowByShortLink(table, c).value, now)
    {
      var found := FindRowByShortLink(table, c);
      if found.Some? {
        link := new Link.Load(found.value, now);
      } else {
        link := null;
      }
    }

    /** findById (findByOriginalLink in the other version): a freshly loaded entity for the
        row with that id, or null. */
    method FindById(u: string, now: int) returns (link: Link?)
      requires Valid()
      ensures link == null <==> !ExistsByOriginalLink(table, u)
      ensures link != null ==> fresh(link) && link.Row() == PostLoaded(FindRowByOriginalLink(table, u).value, now)
    {
      var found := FindRowByOriginalLink(table, u);
      if found.Some? {
        link := new Link.Load(found.value, now);
      } else {
        link := null;
      }
    }

    /** save: write the entity's fields if the save is accepted; otherwise nothing changes. */
    method Save(row: LinkRow) returns (ok: bool)
      requires Valid()
      modifies this
      ensures Valid()
      ensures ok == SaveAccepted(old(table), row)
      ensures table == if ok then old(table)[row.originalLink := Persisted(row)] else old(table)
    {
      ok := SaveAccepted(table, row);
      if ok {
        SaveKeepsTableValid(table, row);
        table := table[row.originalLink := Persisted(row)];
      }
    }

    /** delete: remove the entity's row. */
    method Delete(row: LinkRow)
      requires Valid()
      modifies this
      ensures Valid()
      ensures table == old(table) - {row.originalLink}
    {
      table := table - {row.originalLink};
    }

    /** deleteAllExpired: remove every row whose expiration time is set and before
        `currentTime`; return how many were removed. */
    method DeleteAllExpired(currentTime: int) returns (count: nat)
      requires Valid()
      modifies this
      ensures Valid()
      ensures table == WithoutExpired(old(table), currentTime)
      ensures count == |ExpiredKeys(old(table), currentTime)| == |old(table)| - |table|
    {
      count := |ExpiredKeys(table, currentTime)|;
      CleanUpIdempotent(table, currentTime);
      table := WithoutExpired(table, currentTime);
    }

    /** updateNumberOfUsesByShortLink: one more use on the row with that code. */
    method UpdateNumberOfUsesByShortLink(c: string)
      requires Valid()
      modifies this
      ensures Valid()
      ensures table == IncrementedUses(old(table), c)
    {
      IncrementCountsOneUse(table, c);
      table := IncrementedUses(table, c);
    }
  }
}
