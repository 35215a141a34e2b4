/**
 * The incoming request (LinkRequest): its fields with their defaults and the predicates
 * Bean Validation evaluates on it. Durations are whole seconds.
 */
module LinkRequests {
  import opened Wrappers
  import opened JavaTypes

  const SECONDS_PER_DAY: int := 86400
  /** The TTL cap: Duration.ofDays(60). */
  const MAX_TTL_SECONDS: int := 60 * SECONDS_PER_DAY
  const DEFAULT_TTL_SECONDS: int := 7 * SECONDS_PER_DAY
  const DEFAULT_LENGTH: int32 := 10
  const MIN_LENGTH: int := 4
  const MAX_LENGTH: int := 20
  const MIN_ALIAS: int := 4
  const MAX_ALIAS: int := 20

  /** A request; every Java reference field may be null (`None`). */
  datatype LinkRequest = LinkRequest(
    link: Option<string>,
    length: int32,
    alias: Option<string>,
    rollingExpiration: Option<bool>,
    ttl: Option<int>,
    usageLimit: Option<int32>)

  /** `new LinkRequest()`: length 10, rollingExpiration false, ttl 7 days, the rest null. */
  const Defaults: LinkRequest :=
    LinkRequest(None, DEFAULT_LENGTH, None, Some(false), Some(DEFAULT_TTL_SECONDS), None)

  /** isTtlValid: no TTL, or a TTL of at most 60 days. */
  predicate IsTtlValid(r: LinkRequest) {
    r.ttl.None? || r.ttl.value <= MAX_TTL_SECONDS
  }

  /** hasCondition (which must be false): neither a TTL nor a usage limit, an immortal link. */
  predicate HasCondition(r: LinkRequest) {
    r.ttl.None? && r.usageLimit.None?
  }

  /** The field annotations: @NotNull link, @Min(4)/@Max(20) length, @Size(4, 20) alias
      (a null alias passes; the size is `String.length()`, in UTF-16 code units),
      @NotNull rollingExpiration. */
  predicate FieldsValid(r: LinkRequest) {
    && r.link.Some?
    && MIN_LENGTH <= r.length <= MAX_LENGTH
    && (r.alias.Some? ==> MIN_ALIAS <= Utf16Length(r.alias.value) <= MAX_ALIAS)
    && r.rollingExpiration.Some?
  }

  /** What `@Valid` accepts: the field constraints, @AssertTrue isTtlValid and
      @AssertFalse hasCondition. */
  predicate IsValid(r: LinkRequest) {
    FieldsValid(r) && IsTtlValid(r) && !HasCondition(r)
  }

  /** The cross-field checks, stated as the lifetime a valid request grants: some way for
      the link to die, and a time-based one no later than 60 days. */
  lemma ValidRequestIsMortal(r: LinkRequest)
    requires IsValid(r)
    ensures r.ttl.Some? || r.usageLimit.Some?
    ensures r.ttl.Some? ==> r.ttl.value <= 5184000
    ensures r.alias.Some? ==> 4 <= Utf16Length(r.alias.value) <= 20 && 2 <= |r.alias.value| <= 20
    ensures 4 <= r.length <= 20
  {
  }

  /** Validation rejects exactly the immortal requests and those over the TTL cap, among
      requests whose fields are well-formed. */
  lemma ValidationRejects(r: LinkRequest)
    requires FieldsValid(r)
    ensures !IsValid(r) <==> (r.ttl.None? && r.usageLimit.None?) || (r.ttl.Some? && r.ttl.value > 60 * 86400)
  {
  }

  /** A default request with a link filled in passes validation. */
  lemma DefaultsAreValid(link: string)
    ensures IsValid(Defaults.(link := Some(link)))
    ensures Defaults.length == 10 && Defaults.ttl == Some(604800)
    ensures Defaults.rollingExpiration == Some(false) && Defaults.alias.None? && Defaults.usageLimit.None?
  {
  }

  /** The alias bound counts UTF-16 code units, not characters: two supplementary characters
      (four code units) make a valid alias, eleven (twenty-two code units) do not. */
  lemma AliasSizeInCodeUnits(link: string)
    ensures FieldsValid(Defaults.(link := Some(link), alias := Some("\U{1F642}\U{1F642}")))
    ensures !FieldsValid(Defaults.(link := Some(link), alias := Some(
      "\U{1F642}\U{1F642}\U{1F642}\U{1F642}\U{1F642}\U{1F642}\U{1F642}\U{1F642}\U{1F642}\U{1F642}\U{1F642}")))
  {
  }
}
