/**
 * The link lifecycle (ShortLinkServiceImpl): resolve, create, update and statistic over the
 * repository, with the source's exceptions as a `LinkError` result. The random UUIDs that
 * successive compress calls draw are a parameter, and so is the clock `now`. Each operation
 * is one transaction: a failure leaves the table as it was.
 */
module ShortLinks {
  import opened Wrappers
  import opened JavaTypes
  import opened LinkRequests
  import opened LinkEntity
  import opened LinkStore
  import opened CompressUtils

  /** The exceptions the service throws. */
  datatype LinkError =
    | NotFound(link: string)            // LinkNotFoundException
    | AlreadyExist(shortLink: string)   // LinkAlreadyExistException, with the existing code
    | AliasTaken(alias: string)         // AliasAlreadyExistException
    | GenerateFailed(linkRequest: LinkRequest)  // LinkGenerateException
  {
    /** The exception message: fixed text around the missing link and the taken alias, fixed
        text alone for the other two. */
    function Message(): (m: string)
      ensures NotFound? ==> |m| == 16 + |link| && m[..16] == "Link not found: " && m[16..] == link
      ensures AliasTaken? ==>
        && |m| == 6 + |alias| + 16 && m[..6] == "Alias "
        && m[6..6 + |alias|] == alias && m[6 + |alias|..] == " already exists!"
      ensures AlreadyExist? ==> m == "Link already exist"
      ensures GenerateFailed? ==> m == "Unable to generate unique link"
    {
      match this
      case NotFound(link) => "Link not found: " + link
      case AlreadyExist(_) => "Link already exist"
      case AliasTaken(alias) => "Alias " + alias + " already exists!"
      case GenerateFailed(_) => "Unable to generate unique link"
    }
  }

  /** How many times `for (attempt = 0; attempt < MAX_ATTEMPT; attempt++)` runs. */
  function AttemptBudget(maxAttempt: int): nat {
    if maxAttempt < 0 then 0 else maxAttempt
  }

  /** The characters in the encoding of a UUID, the longest code compress can cut. */
  const MAX_CODE_LENGTH: int := 22

  /** The code one compress call returns for the UUID it draws. */
  function CodeOf(u: Uuid, length: int): (c: string)
    requires 0 <= length <= MAX_CODE_LENGTH
    ensures CompressedCode(u, length) == Some(c) && |c| == length
  {
    CompressedCodeShape(u, length);
    CompressedCode(u, length).value
  }

  /** The codes successive compress calls return for the given random UUIDs. */
  function GeneratedCodes(uuids: seq<Uuid>, length: int): (cs: seq<string>)
    requires 0 <= length <= MAX_CODE_LENGTH
    ensures |cs| == |uuids|
    ensures forall i :: 0 <= i < |cs| ==> CompressedCode(uuids[i], length) == Some(cs[i]) && |cs[i]| == length
  {
    seq(|uuids|, i requires 0 <= i < |uuids| => CodeOf(uuids[i], length))
  }

  /** The codes a request draws from: none on the alias path. */
  function Candidates(req: LinkRequest, uuids: seq<Uuid>): (cs: seq<string>)
    requires req.alias.None? ==> 0 <= req.length <= MAX_CODE_LENGTH
  {
    if req.alias.Some? then [] else GeneratedCodes(uuids, req.length)
  }

  /** Every code in cs is already stored. */
  ghost predicate AllTaken(t: Table, cs: seq<string>) {
    forall i :: 0 <= i < |cs| ==> ExistsByShortLink(t, cs[i])
  }

  /** The first free candidate at or after `from`, among the first `budget`. */
  function FirstFree(t: Table, cs: seq<string>, from: nat, budget: nat): (r: Option<nat>)
    requires from <= budget <= |cs|
    ensures r.Some? ==> from <= r.value < budget && !ExistsByShortLink(t, cs[r.value]) && AllTaken(t, cs[from..r.value])
    ensures r.None? <==> AllTaken(t, cs[from..budget])
    decreases budget - from
  {
    if from == budget then None
    else if !ExistsByShortLink(t, cs[from]) then Some(from)
    else
      var r := FirstFree(t, cs, from + 1, budget);
      assert forall i :: from + 1 <= i <= budget ==> cs[from..i] == [cs[from]] + cs[from + 1..i];
      r
  }

  /** The code tryGenerateShortLink settles on, with the number of generator calls and of
      existsByShortLink calls it makes. */
  datatype CodeChoice = CodeChoice(outcome: Result<string, LinkError>, generated: nat, checked: nat)

  function ChooseCode(t: Table, req: LinkRequest, cs: seq<string>, budget: nat): CodeChoice
    requires req.alias.None? ==> budget <= |cs|
  {
    if req.alias.Some? then
      CodeChoice(if ExistsByShortLink(t, req.alias.value) then Failure(AliasTaken(req.alias.value))
                 else Success(req.alias.value), 0, 1)
    else
      match FirstFree(t, cs, 0, budget)
      case Some(i) => CodeChoice(Success(cs[i]), i + 1, i + 1)
      case None => CodeChoice(Failure(GenerateFailed(req)), budget, budget)
  }

  /** The alias path makes one existence check and never calls the generator; it uses the
      alias exactly when no row holds it. */
  lemma AliasPath(t: Table, req: LinkRequest, cs: seq<string>, budget: nat)
    requires req.alias.Some?
    ensures var c := ChooseCode(t, req, cs, budget);
      && c.generated == 0 && c.checked == 1
      && (c.outcome.Success? <==> !ExistsByShortLink(t, req.alias.value))
      && (c.outcome.Success? ==> c.outcome.value == req.alias.value)
      && (c.outcome.Failure? ==> c.outcome.error == AliasTaken(req.alias.value))
  {
  }

  /** The generated path makes as many generator calls as existence checks, at most the
      budget; it stops at the first free candidate, and fails with GenerateFailed after
      exactly `budget` attempts when all of them are taken. */
  lemma GeneratedPath(t: Table, req: LinkRequest, cs: seq<string>, budget: nat)
    requires budget <= |cs| && req.alias.None?
    ensures var c := ChooseCode(t, req, cs, budget);
      && c.generated == c.checked <= budget
      && (c.outcome.Success? ==>
            1 <= c.checked && c.outcome.value == cs[c.checked - 1]
            && !ExistsByShortLink(t, c.outcome.value) && AllTaken(t, cs[..c.checked - 1]))
      && (c.outcome.Failure? ==>
            c.outcome.error == GenerateFailed(req) && c.checked == budget && AllTaken(t, cs[..budget]))
      && (c.outcome.Failure? <==> AllTaken(t, cs[..budget]))
  {
    assert cs[0..budget] == cs[..budget];
    match FirstFree(t, cs, 0, budget)
    case Some(i) => assert cs[0..i] == cs[..i];
    case None =>
  }

  /** The expirationTime fillLinkExpiration writes: none without a TTL, else now + ttl. */
  function ExpirationTime(ttl: Option<int>, now: int): (r: Option<int>)
    ensures r.None? <==> ttl.None?
  {
    if ttl.None? then None else Some(now + ttl.value)
  }

  /** The entity after fillLinkExpiration. */
  function FilledExpiration(row: LinkRow, req: LinkRequest, now: int): (r: LinkRow)
    requires req.rollingExpiration.Some?
  {
    row.(ttl := req.ttl, usageLimit := req.usageLimit, expirationTime := ExpirationTime(req.ttl, now),
         rollingExpiration := req.rollingExpiration.value)
  }

  /** The entity generateShortLink builds before choosing its code. */
  function NewLink(req: LinkRequest, now: int): LinkRow
    requires req.link.Some? && req.rollingExpiration.Some?
  {
    FilledExpiration(LinkRow(req.link.value, "", 0, None, None, None, None, false, None), req, now)
  }

  /** The record Create stores: no uses yet, limit, TTL and rolling flag from the request,
      the expiry `ttl` after `now`, inserted at version 0. A validated request therefore
      never yields an immortal record, nor one living more than 60 days. */
  lemma CreatedRecord(req: LinkRequest, code: string, now: int)
    requires req.link.Some? && req.rollingExpiration.Some?
    ensures var r := Persisted(NewLink(req, now).(shortLink := code));
      && r.originalLink == req.link.value && r.shortLink == code
      && r.numberOfUses == 0 && r.lastAccess.None? && r.version == Some(0)
      && r.usageLimit == req.usageLimit && r.ttl == req.ttl
      && r.rollingExpiration == req.rollingExpiration.value
      && (r.expirationTime.None? <==> req.ttl.None?)
      && (req.ttl.Some? ==> r.expirationTime == Some(now + req.ttl.value))
      && (IsValid(req) ==> (r.expirationTime.Some? || r.usageLimit.Some?))
      && (IsValid(req) && r.expirationTime.Some? ==> r.expirationTime.value <= now + MAX_TTL_SECONDS)
  {
  }

  /** The record Update stores over the row it found: identity kept, the load counted as a
      use and stamped, code, limit and expiry fields replaced, version one more. */
  lemma UpdatedRecord(row: LinkRow, req: LinkRequest, code: string, now: int)
    requires req.rollingExpiration.Some? && row.version.Some?
    ensures var r := Persisted(FilledExpiration(PostLoaded(row, now), req, now).(shortLink := code));
      && r.originalLink == row.originalLink && r.shortLink == code
      && r.numberOfUses == row.numberOfUses + 1 && r.lastAccess == Some(now)
      && r.usageLimit == req.usageLimit && r.ttl == req.ttl
      && r.expirationTime == ExpirationTime(req.ttl, now)
      && r.rollingExpiration == req.rollingExpiration.value
      && r.version == Some(row.version.value + 1)
  {
  }

  /** The record an update is meant to store over the row it found: the row as stored, with
      code, limit and expiry fields replaced and version one more; an update is not a use,
      so the use count and the last access stay as they were. */
  lemma CorrectedUpdatedRecord(row: LinkRow, req: LinkRequest, code: string, now: int)
    requires req.rollingExpiration.Some? && row.version.Some?
    ensures var r := Persisted(FilledExpiration(row, req, now).(shortLink := code));
      && r.originalLink == row.originalLink && r.shortLink == code
      && r.numberOfUses == row.numberOfUses && r.lastAccess == row.lastAccess
      && r.usageLimit == req.usageLimit && r.ttl == req.ttl
      && r.expirationTime == ExpirationTime(req.ttl, now)
      && r.rollingExpiration == req.rollingExpiration.value
      && r.version == Some(row.version.value + 1)
  {
  }

  /** The discrepancy on the unit test's row (10 uses, no limit): as written the update
      stores 11 uses, where the test and the intent expect 10; corrected, 10 are stored. */
  lemma UpdateCountsLoadCounterexample(req: LinkRequest, code: string, now: int)
    requires req.rollingExpiration.Some?
    ensures var row := LinkRow("https://example.com/exist", "oldShort", 10, None, None, None, None, false, Some(0));
      && Persisted(FilledExpiration(PostLoaded(row, now), req, now).(shortLink := code)).numberOfUses == 11
      && Persisted(FilledExpiration(row, req, now).(shortLink := code)).numberOfUses == 10
  {
  }

  /** The check of getOriginalLink, made on the loaded entity. */
  predicate LimitReached(loaded: LinkRow) {
    loaded.usageLimit.Some? && loaded.usageLimit.value <= loaded.numberOfUses
  }

  /** What one resolve leaves of a row: nothing when the loaded entity has reached its limit
      (deleted), else the loaded entity, which the commit writes back. */
  function AfterResolve(row: LinkRow, now: int): Option<LinkRow> {
    var loaded := PostLoaded(row, now);
    if LimitReached(loaded) then None else Some(Persisted(loaded))
  }

  /** The composed behaviour of load and check: since the load both counts the use and
      spends a unit of the limit, a stored row (uses u, limit L) is deleted by the resolve
      exactly when L - 1 <= u + 1; a row without a limit is never deleted. */
  lemma ResolveDeletes(row: LinkRow, now: int)
    requires row.usageLimit.Some? ==> row.usageLimit.value > INT32_MIN
    ensures AfterResolve(row, now).None? <==> row.usageLimit.Some? && row.usageLimit.value <= row.numberOfUses + 2
    ensures AfterResolve(row, now).Some? ==>
      var next := AfterResolve(row, now).value;
      next.numberOfUses == row.numberOfUses + 1 && next.lastAccess == Some(now) &&
      next.usageLimit == (if row.usageLimit.Some? then Some(row.usageLimit.value - 1) else None) &&
      next.originalLink == row.originalLink && next.shortLink == row.shortLink
  {
  }

  /** Successful resolves among `calls` consecutive ones, as the source behaves. */
  function ServedAsWritten(row: LinkRow, now: int, calls: nat): nat
    decreases calls
  {
    if calls == 0 then 0
    else match AfterResolve(row, now)
      case None => 1
      case Some(next) => 1 + ServedAsWritten(next, now, calls - 1)
  }

  /** As written, a row with limit L and u uses answers only (L - u + 1) / 2 more resolves:
      every resolve moves the count and the limit one step towards each other. */
  lemma {:induction false} AsWrittenServesHalf(row: LinkRow, now: int, calls: nat)
    requires row.usageLimit.Some? && 0 <= row.numberOfUses < row.usageLimit.value
    requires calls >= row.usageLimit.value - row.numberOfUses
    ensures ServedAsWritten(row, now, calls) == (row.usageLimit.value - row.numberOfUses + 1) / 2
    decreases calls
  {
    var gap := row.usageLimit.value - row.numberOfUses;
    ResolveDeletes(row, now);
    if gap > 2 {
      var next := AfterResolve(row, now).value;
      AsWrittenServesHalf(next, now, calls - 1);
    }
  }

  /** The corrected check: the loaded usageLimit already is the number of resolves left
      after this one (the load spent a unit of it), so the link goes once that reaches 0. */
  predicate BudgetSpent(loaded: LinkRow) {
    loaded.usageLimit.Some? && loaded.usageLimit.value <= 0
  }

  /** One resolve with the corrected check. */
  function CorrectedAfterResolve(row: LinkRow, now: int): Option<LinkRow> {
    var loaded := PostLoaded(row, now);
    if BudgetSpent(loaded) then None else Some(Persisted(loaded))
  }

  function ServedCorrected(row: LinkRow, now: int, calls: nat): nat
    decreases calls
  {
    if calls == 0 then 0
    else match CorrectedAfterResolve(row, now)
      case None => 1
      case Some(next) => 1 + ServedCorrected(next, now, calls - 1)
  }

  /** With the corrected check a row with usage limit L answers exactly L more resolves,
      however many are attempted: for a new link with limit N the N-th resolve still
      returns the URL and removes the link, the next one finds nothing. */
  lemma {:induction false} CorrectedServesLimit(row: LinkRow, now: int, calls: nat)
    requires row.usageLimit.Some? && row.usageLimit.value >= 1
    requires calls >= row.usageLimit.value
    ensures ServedCorrected(row, now, calls) == row.usageLimit.value
    decreases calls
  {
    if row.usageLimit.value > 1 {
      var next := CorrectedAfterResolve(row, now).value;
      CorrectedServesLimit(next, now, calls - 1);
    }
  }

  /** A row without a usage limit is never removed by a resolve, as written or corrected. */
  lemma UnlimitedStays(row: LinkRow, now: int)
    requires row.usageLimit.None?
    ensures AfterResolve(row, now) == CorrectedAfterResolve(row, now) == Some(Persisted(PostLoaded(row, now)))
  {
  }

  /** The discrepancy on one input: a new link with usage limit 2 is removed by its first
      resolve as written, so of three resolves only one succeeds; corrected, two do. */
  lemma LimitTwoCounterexample(req: LinkRequest, code: string, now: int)
    requires req.link.Some? && req.rollingExpiration.Some? && req.usageLimit == Some(2)
    ensures var row := Persisted(NewLink(req, now).(shortLink := code));
      && AfterResolve(row, now).None?
      && ServedAsWritten(row, now, 3) == 1
      && ServedCorrected(row, now, 3) == 2
  {
    var row := Persisted(NewLink(req, now).(shortLink := code));
    CorrectedServesLimit(row, now, 3);
  }

  /** The service object: the repository, the host prefix and MAX_ATTEMPT. */
  class ShortLinkService {
    const repository: LinkRepository
    const baseHost: string
    const maxAttempt: int32

    constructor (repository: LinkRepository, baseHost: string, maxAttempt: int32)
      ensures this.repository == repository && this.baseHost == baseHost && this.maxAttempt == maxAttempt
    {
      this.repository := repository;
      this.baseHost := baseHost;
      this.maxAttempt := maxAttempt;
    }

    /** getOriginalLink: NotFound for an unknown code, the table untouched; otherwise the
        original URL, with the row deleted when the loaded entity has reached its limit and
        written back, counted and stamped, otherwise. */
    method GetOriginalLink(shortLink: string, now: int) returns (r: Result<string, LinkError>)
      requires repository.Valid()
      modifies repository
      ensures repository.Valid()
      ensures !ExistsByShortLink(old(repository.table), shortLink) ==>
        r == Failure(NotFound(shortLink)) && repository.table == old(repository.table)
      ensures ExistsByShortLink(old(repository.table), shortLink) ==>
        var row := FindRowByShortLink(old(repository.table), shortLink).value;
        && r == Success(row.originalLink)
        && repository.table == match AfterResolve(row, now)
             case None => old(repository.table) - {row.originalLink}
             case Some(next) => old(repository.table)[row.originalLink := next]
    {
      var link := repository.FindByShortLink(shortLink, now);
      if link == null {
        r := Failure(NotFound(shortLink));
        return;
      }
      if link.usageLimit.Some? && link.usageLimit.value <= link.numberOfUses {
        repository.Delete(link.Row());
      } else {
        // the commit flushes the entity its @PostLoad hook changed
        ghost var row := FindRowByShortLink(repository.table, shortLink).value;
        assert repository.table[row.originalLink] == row;
        var flushed := repository.Save(link.Row());
      }
      r := Success(link.originalLink);
    }

    /** getOriginalLink with the corrected limit check (see CorrectedAfterResolve). */
    method GetOriginalLinkCorrected(shortLink: string, now: int) returns (r: Result<string, LinkError>)
      requires repository.Valid()
      modifies repository
      ensures repository.Valid()
      ensures !ExistsByShortLink(old(repository.table), shortLink) ==>
        r == Failure(NotFound(shortLink)) && repository.table == old(repository.table)
      ensures ExistsByShortLink(old(repository.table), shortLink) ==>
        var row := FindRowByShortLink(old(repository.table), shortLink).value;
        && r == Success(row.originalLink)
        && repository.table == match CorrectedAfterResolve(row, now)
             case None => old(repository.table) - {row.originalLink}
             case Some(next) => old(repository.table)[row.originalLink := next]
    {
      var link := repository.FindByShortLink(shortLink, now);
      if link == null {
        r := Failure(NotFound(shortLink));
        return;
      }
      if link.usageLimit.Some? && link.usageLimit.value <= 0 {
        repository.Delete(link.Row());
      } else {
        ghost var row := FindRowByShortLink(repository.table, shortLink).value;
        assert repository.table[row.originalLink] == row;
        var flushed := repository.Save(link.Row());
      }
      r := Success(link.originalLink);
    }

    /** generateShortLink. */
    method GenerateShortLink(req: LinkRequest, uuids: seq<Uuid>, now: int)
      returns (r: Result<string, LinkError>, generated: nat, checked: nat)
      requires repository.Valid() && req.link.Some? && req.rollingExpiration.Some?
      requires req.alias.None? ==> 0 <= req.length <= MAX_CODE_LENGTH
      requires req.alias.None? ==> |uuids| >= maxAttempt
      modifies repository
      ensures repository.Valid()
      ensures var t, u := old(repository.table), req.link.value;
        ExistsByOriginalLink(t, u) ==>
          r == Failure(AlreadyExist(t[u].shortLink)) && generated == 0 && checked == 0 && repository.table == t
      ensures var t, u := old(repository.table), req.link.value;
        !ExistsByOriginalLink(t, u) ==>
          var choice := ChooseCode(t, req, Candidates(req, uuids), AttemptBudget(maxAttempt));
          && generated == choice.generated && checked == choice.checked
          && match choice.outcome
             case Success(code) =>
               r == Success(baseHost + code) && repository.table == t[u := Persisted(NewLink(req, now).(shortLink := code))]
             case Failure(e) => r == Failure(e) && repository.table == t
    {
      var existing := ThrowIfOriginalLinkExist(req, now);
      if existing.Some? {
        return Failure(existing.value), 0, 0;
      }
      var link := new Link();
      link.originalLink := req.link.value;
      link.numberOfUses := 0;
      FillLinkExpiration(req, link, now);
      var settled;
      settled, generated, checked := TryGenerateShortLink(req, link, uuids);
      if settled.Failure? {
        r := Failure(settled.error);
      } else if settled.value {
        var shortLink := SaveAndReturnShortLink(link);
        r := Success(shortLink);
      } else {
        r := Failure(GenerateFailed(req));
      }
    }

    /** changeShortLink. */
    method ChangeShortLink(req: LinkRequest, uuids: seq<Uuid>, now: int)
      returns (r: Result<string, LinkError>, generated: nat, checked: nat)
      requires repository.Valid() && req.link.Some? && req.rollingExpiration.Some?
      requires req.alias.None? ==> 0 <= req.length <= MAX_CODE_LENGTH
      requires req.alias.None? ==> |uuids| >= maxAttempt
      modifies repository
      ensures repository.Valid()
      ensures var t, u := old(repository.table), req.link.value;
        !ExistsByOriginalLink(t, u) ==>
          r == Failure(NotFound(u)) && generated == 0 && checked == 0 && repository.table == t
      ensures var t, u := old(repository.table), req.link.value;
        ExistsByOriginalLink(t, u) ==>
          var choice := ChooseCode(t, req, Candidates(req, uuids), AttemptBudget(maxAttempt));
          && generated == choice.generated && checked == choice.checked
          && match choice.outcome
             case Success(code) =>
               && r == Success(baseHost + code)
               && repository.table == t[u := Persisted(FilledExpiration(PostLoaded(t[u], now), req, now).(shortLink := code))]
             case Failure(e) => r == Failure(e) && repository.table == t
    {
      var originalLink := req.link.value;
      var link := repository.FindById(originalLink, now);
      if link == null {
        return Failure(NotFound(originalLink)), 0, 0;
      }
      FillLinkExpiration(req, link, now);
      var settled;
      settled, generated, checked := TryGenerateShortLink(req, link, uuids);
      if settled.Failure? {
        r := Failure(settled.error);
      } else if settled.value {
        var shortLink := SaveAndReturnShortLink(link);
        r := Success(shortLink);
      } else {
        r := Failure(GenerateFailed(req));
      }
    }

    /** changeShortLink as intended: the update works on the row as stored, so it does not
        count a use (see CorrectedUpdatedRecord). */
    method ChangeShortLinkCorrected(req: LinkRequest, uuids: seq<Uuid>, now: int)
      returns (r: Result<string, LinkError>, generated: nat, checked: nat)
      requires repository.Valid() && req.link.Some? && req.rollingExpiration.Some?
      requires req.alias.None? ==> 0 <= req.length <= MAX_CODE_LENGTH
      requires req.alias.None? ==> |uuids| >= maxAttempt
      modifies repository
      ensures repository.Valid()
      ensures var t, u := old(repository.table), req.link.value;
        !ExistsByOriginalLink(t, u) ==>
          r == Failure(NotFound(u)) && generated == 0 && checked == 0 && repository.table == t
      ensures var t, u := old(repository.table), req.link.value;
        ExistsByOriginalLink(t, u) ==>
          var choice := ChooseCode(t, req, Candidates(req, uuids), AttemptBudget(maxAttempt));
          && generated == choice.generated && checked == choice.checked
          && match choice.outcome
             case Success(code) =>
               && r == Success(baseHost + code)
               && repository.table == t[u := Persisted(FilledExpiration(t[u], req, now).(shortLink := code))]
             case Failure(e) => r == Failure(e) && repository.table == t
    {
      var originalLink := req.link.value;
      if originalLink !in repository.table {
        return Failure(NotFound(originalLink)), 0, 0;
      }
      var link := new Link.Hydrate(repository.table[originalLink]);
      FillLinkExpiration(req, link, now);
      var settled;
      settled, generated, checked := TryGenerateShortLink(req, link, uuids);
      if settled.Failure? {
        r := Failure(settled.error);
      } else if settled.value {
        var shortLink := SaveAndReturnShortLink(link);
        r := Success(shortLink);
      } else {
        r := Failure(GenerateFailed(req));
      }
    }

    /** getLinkStatistic: the statistic of the row with that code, or NotFound. */
    method GetLinkStatistic(shortLink: string) returns (r: Result<LinkStatistic, LinkError>)
      requires repository.Valid()
      ensures r.Failure? <==> !ExistsByShortLink(repository.table, shortLink)
      ensures r.Failure? ==> r.error == NotFound(shortLink)
      ensures r.Success? ==> Some(r.value) == StatisticByLink(repository.table, shortLink)
    {
      var statistic := StatisticByLink(repository.table, shortLink);
      if statistic.None? {
        r := Failure(NotFound(shortLink));
      } else {
        r := Success(statistic.value);
      }
    }

    /** tryCompress: up to MAX_ATTEMPT generate-and-check rounds; the first free code is
        set on the entity. */
    method TryCompress(req: LinkRequest, link: Link, uuids: seq<Uuid>) returns (ok: bool, attempts: nat)
      requires 0 <= req.length <= MAX_CODE_LENGTH && |uuids| >= maxAttempt
      modifies link
      ensures var cs := GeneratedCodes(uuids, req.length);
        var first := FirstFree(repository.table, cs, 0, AttemptBudget(maxAttempt));
        && ok == first.Some?
        && attempts == (if ok then first.value + 1 else AttemptBudget(maxAttempt))
        && link.Row() == if ok then old(link.Row()).(shortLink := cs[first.value]) else old(link.Row())
    {
      var budget := AttemptBudget(maxAttempt);
      ghost var cs := GeneratedCodes(uuids, req.length);
      ghost var first := FirstFree(repository.table, cs, 0, budget);
      attempts := 0;
      var attempt := 0;
      while attempt < maxAttempt
        invariant attempt <= budget
        invariant attempts == attempt
        invariant first == FirstFree(repository.table, cs, attempt, budget)
        invariant link.Row() == old(link.Row())
      {
        var code := Compress(req.link, uuids[attempt], req.length);
        var shortLink := code.value;
        attempts := attempts + 1;
        if !ExistsByShortLink(repository.table, shortLink) {
          link.shortLink := shortLink;
          return true, attempts;
        }
        attempt := attempt + 1;
      }
      ok := false;
    }

    /** tryGenerateShortLink: the alias after one check (AliasTaken if it is stored), or the
        generated path; reports whether a code was set. */
    method TryGenerateShortLink(req: LinkRequest, link: Link, uuids: seq<Uuid>)
      returns (r: Result<bool, LinkError>, generated: nat, checked: nat)
      requires req.alias.None? ==> 0 <= req.length <= MAX_CODE_LENGTH
      requires req.alias.None? ==> |uuids| >= maxAttempt
      modifies link
      ensures var choice := ChooseCode(repository.table, req, Candidates(req, uuids), AttemptBudget(maxAttempt));
        && generated == choice.generated && checked == choice.checked
        && match choice.outcome
           case Success(code) => r == Success(true) && link.Row() == old(link.Row()).(shortLink := code)
           case Failure(e) =>
             link.Row() == old(link.Row()) &&
             r == (if e.GenerateFailed? then Success(false) else Failure(e))
    {
      if req.alias.Some? {
        checked, generated := 1, 0;
        if ExistsByShortLink(repository.table, req.alias.value) {
          return Failure(AliasTaken(req.alias.value)), generated, checked;
        }
        link.shortLink := req.alias.value;
        return Success(true), generated, checked;
      }
      var ok, attempts := TryCompress(req, link, uuids);
      r, generated, checked := Success(ok), attempts, attempts;
    }

    /** throwIfOriginalLinkExist: AlreadyExist with the stored code when the URL is already
        shortened. (The entity findById loads is discarded with the rolled-back transaction.) */
    method ThrowIfOriginalLinkExist(req: LinkRequest, now: int) returns (e: Option<LinkError>)
      requires repository.Valid() && req.link.Some?
      ensures e.None? <==> !ExistsByOriginalLink(repository.table, req.link.value)
      ensures e.Some? ==> e.value == AlreadyExist(repository.table[req.link.value].shortLink)
    {
      if ExistsByOriginalLink(repository.table, req.link.value) {
        var existing := repository.FindById(req.link.value, now);
        e := Some(AlreadyExist(existing.shortLink));
      } else {
        e := None;
      }
    }

    /** fillLinkExpiration. */
    method FillLinkExpiration(req: LinkRequest, link: Link, now: int)
      requires req.rollingExpiration.Some?
      modifies link
      ensures link.Row() == FilledExpiration(old(link.Row()), req, now)
    {
      var ttl := req.ttl;
      link.ttl := ttl;
      link.usageLimit := req.usageLimit;
      link.expirationTime := if ttl.None? then None else Some(now + ttl.value);
      link.rollingExpiration := req.rollingExpiration.value;
    }

    /** saveAndReturnShortLink: save the entity, return the host followed by its code. In
        the sequential model the preceding checks guarantee the save is accepted. */
    method SaveAndReturnShortLink(link: Link) returns (s: string)
      requires repository.Valid() && SaveAccepted(repository.table, link.Row())
      modifies repository
      ensures repository.Valid()
      ensures s == baseHost + link.shortLink
      ensures repository.table == old(repository.table)[link.originalLink := Persisted(link.Row())]
    {
      var saved := repository.Save(link.Row());
      s := baseHost + link.shortLink;
    }
  }
}
