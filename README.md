# ShortLinkService link lifecycle in Dafny

A model of the link lifecycle of ShortLinkService, a URL shortener:

- resolving a short code to its original URL, which enforces the usage limit;
- creating a short link, with a caller-chosen alias or a generated code;
- changing the code and lifetime of an existing link;
- the use-count statistic and its rank;
- removing expired links;
- the request checks that decide what lifetime a link may be given;
- the generator of short codes: a random UUID packed into 16 big-endian bytes, encoded with the unpadded URL-safe alphabet of section 5 of RFC 4648, and cut to length.

Modules, by file:

- `wrappers.dfy`:
  - `Wrappers`: `Option` stands for null and `Optional`; `Result` stands for a thrown exception.
  - `JavaTypes`: Java's `int` and `long` ranges, the wrap-around of `int` decrement, and `String.length()` in UTF-16 code units.
- `base64url.dfy` (`Base64Url`): the encoder, a decoder, and the proof that decoding undoes encoding.
- `compress_utils.dfy` (`CompressUtils`):
  - the UUID and its big-endian packing;
  - a `ByteBuffer` class over an array with `putLong`;
  - the `compress` method.
- `link_request.dfy` (`LinkRequests`): the request record, its defaults and the validation predicates.
- `link_entity.dfy` (`LinkEntity`):
  - `LinkRow`, one table row and also a snapshot of an entity;
  - the `Link` entity class, whose `@PostLoad` hook runs on every load.
- `link_store.dfy` (`LinkStore`):
  - the table, a map from `originalLink` (the id) to rows in which `shortLink` is unique;
  - finders, exists checks and the rank query, as functions;
  - a `LinkRepository` class owning the table, with `save`, `delete`, `deleteAllExpired`, the counter update, and the finders that return loaded entities.
  - The two repository interfaces of the source are folded into this one store.
- `short_link_service.dfy` (`ShortLinks`):
  - the error datatype;
  - the `ShortLinkService` class with the four operations and their helpers;
  - the specification functions of code choice and of resolve;
  - the usage-limit finding.

How the model stands in for the framework:

- **Time and randomness are parameters.** Time is a parameter `now`, in whole seconds. The random UUIDs that successive `compress` calls draw are a parameter `uuids`. The operations report how many codes they generated and how many existence checks they made.
- **Transactions.** Each service operation is one transaction, so a failed operation leaves the table as it was.
- **Loading and flushing entities.** A load hydrates a fresh entity and runs `@PostLoad`. A loaded entity that the operation changes, and does not delete, is written back at commit. This is dirty checking, modelled as a `save` of the entity.
- **What `save` accepts:**
  - An entity without a version is inserted. Its id and its code must both be new.
  - An entity with a version is merged. Its row must carry that version, and no other row may hold its code.
  - Anything else is refused and changes nothing.

Where the code behaves differently from what its documentation, tests or names suggest, the model follows the code:

- **Update counts one use.** `changeShortLink` loads the link with `findById`, so `@PostLoad` runs. The saved row therefore has one more use and a fresh `lastAccess`. (Its shifted usage limit is overwritten by `fillLinkExpiration`.) The unit tests that expect the count unchanged use a mocked repository, which never runs the hook. See Findings: `ChangeShortLink` keeps the code's behaviour and `ChangeShortLinkCorrected` works on the row as stored.
- **Rank is competition ranking, not dense.** The rank query is `1 + #rows with strictly more uses`. Ties share a rank, but the ranks after a tie are pushed down: for counts {20, 20, 5} the last link is third.
- **Usage limit.** The usage-limit check as written differs from the intended behaviour (the field's name and the service's unit test with limit 5 and 5 uses); see Findings. The class keeps the code's behaviour in `GetOriginalLink` and offers the corrected check beside it.

`rollingExpiration` is stored and nothing more: no code path extends `expirationTime` on access.

## Model

| member | source | states |
|---|---|---|
| JavaTypes.Decrement32 | src/main/java/org/pogonin/shortlinkservice/core/entity/Link.java:47-48 | `usageLimit--` on an `Integer` is one less, wrapping from the minimum to the maximum (congruent to x-1 modulo 2^32) |
| JavaTypes.Utf16Length | src/main/java/org/pogonin/shortlinkservice/api/dto/in/LinkRequest.java:34 | the length `@Size` measures, in UTF-16 code units: between the number of characters and twice that, equal to it exactly when no character lies above U+FFFF |
| Base64Url.SextetOf | src/main/java/org/pogonin/shortlinkservice/core/utils/impl/UUIDCompressUtils.java:18 | a character has a 6-bit value exactly when it is in the URL-safe alphabet A-Z a-z 0-9 - _ |
| Base64Url.CharOfSextet | src/main/java/org/pogonin/shortlinkservice/core/utils/impl/UUIDCompressUtils.java:18 | each 6-bit value maps to a URL-safe character whose value is that number |
| Base64Url.EncodeGroup | src/main/java/org/pogonin/shortlinkservice/core/utils/impl/UUIDCompressUtils.java:18 | three octets encode to four characters |
| Base64Url.Encode | src/main/java/org/pogonin/shortlinkservice/core/utils/impl/UUIDCompressUtils.java:18 | the unpadded URL-safe encoding: four characters per group of three octets, then two or three for a final one or two octets |
| Base64Url.TailShape | src/main/java/org/pogonin/shortlinkservice/core/utils/impl/UUIDCompressUtils.java:18 | a final one or two octets encode to two or three alphabet characters, as (4n+2)/3 gives |
| Base64Url.EncodeShape | src/main/java/org/pogonin/shortlinkservice/core/utils/impl/UUIDCompressUtils.java:18 | the unpadded URL-safe encoding of n octets has (4n+2)/3 characters, all in the alphabet |
| Base64Url.DecodeEncode | src/main/java/org/pogonin/shortlinkservice/core/utils/impl/UUIDCompressUtils.java:18 | decoding the encoding of any octet sequence gives it back, so the encoding is injective |
| Base64Url.TailRoundTrip | src/main/java/org/pogonin/shortlinkservice/core/utils/impl/UUIDCompressUtils.java:18 | a final group of one or two octets decodes back from its two or three characters |
| Base64Url.DecodeQuadGroup | src/main/java/org/pogonin/shortlinkservice/core/utils/impl/UUIDCompressUtils.java:18 | the four characters of a full group decode to its three octets |
| Base64Url.DecodeGroup | src/main/java/org/pogonin/shortlinkservice/core/utils/impl/UUIDCompressUtils.java:18 | decoding a full group in front of any text prepends the group's three octets to what the text decodes to |
| Base64Url.TestVectorFoob | src/main/java/org/pogonin/shortlinkservice/core/utils/impl/UUIDCompressUtils.java:18 | "foob" encodes to "Zm9vYg", the unpadded form of the RFC 4648 test vector |
| Base64Url.TestVectorUrlSafe | src/main/java/org/pogonin/shortlinkservice/core/utils/impl/UUIDCompressUtils.java:18 | the octets FB FF encode to "-_8", using the two URL-safe characters in place of "+" and "/" |
| CompressUtils.Unsigned | src/main/java/org/pogonin/shortlinkservice/core/utils/impl/UUIDCompressUtils.java:16-17 | the bit pattern of a long, as a number below 2^64 congruent to it |
| CompressUtils.Signed | src/main/java/org/pogonin/shortlinkservice/core/utils/impl/UUIDCompressUtils.java:16-17 | the long with a given bit pattern (inverse of Unsigned) |
| CompressUtils.FromBigEndian | src/main/java/org/pogonin/shortlinkservice/core/utils/impl/UUIDCompressUtils.java:16-17 | octets read most significant first give a number below 256^n |
| CompressUtils.BigEndian | src/main/java/org/pogonin/shortlinkservice/core/utils/impl/UUIDCompressUtils.java:16-17 | the n octets putLong writes for a value read back to that value |
| CompressUtils.BigEndianFromBigEndian | src/main/java/org/pogonin/shortlinkservice/core/utils/impl/UUIDCompressUtils.java:16-17 | writing back the value of an octet sequence gives the sequence |
| CompressUtils.UuidBytes | src/main/java/org/pogonin/shortlinkservice/core/utils/impl/UUIDCompressUtils.java:15-17 | the buffer holds 16 bytes: most significant long, then least significant long |
| CompressUtils.UuidPackingIsBijective | src/main/java/org/pogonin/shortlinkservice/core/utils/impl/UUIDCompressUtils.java:15-17 | packing is a bijection between UUIDs and 16-byte sequences, so every 16-byte input is reachable |
| CompressUtils.CompressedCode | src/main/java/org/pogonin/shortlinkservice/core/utils/impl/UUIDCompressUtils.java:13-19 | the code for a UUID is the first `length` characters of the encoding of its 16 bytes, none when `substring` would throw; the source URL plays no part |
| CompressUtils.ByteBuffer.Allocate | src/main/java/org/pogonin/shortlinkservice/core/utils/impl/UUIDCompressUtils.java:15 | a zero-filled buffer of the given capacity at position 0 |
| CompressUtils.ByteBuffer.PutLong | src/main/java/org/pogonin/shortlinkservice/core/utils/impl/UUIDCompressUtils.java:16-17 | the eight big-endian octets of the long replace the bytes at the position, which advances by 8; the other bytes are unchanged |
| CompressUtils.Compress | src/main/java/org/pogonin/shortlinkservice/core/utils/impl/UUIDCompressUtils.java:13-19 | the code is the first `length` characters of the encoding of the UUID's 16 bytes, whatever `src` is; no code when `length` is out of range (substring would throw) |
| CompressUtils.CompressedCodeShape | src/main/java/org/pogonin/shortlinkservice/core/utils/impl/UUIDCompressUtils.java:18 | the encoding has 22 characters; a code exists exactly for 0 <= length <= 22; it then has `length` characters, is a prefix of the encoding, and is URL-safe |
| LinkRequests.ValidRequestIsMortal | src/main/java/org/pogonin/shortlinkservice/api/dto/in/LinkRequest.java:49-61 | a valid request has a TTL or a usage limit, a TTL of at most 60 days, length in [4, 20] and an alias of 4 to 20 UTF-16 code units (so 2 to 20 characters) |
| LinkRequests.ValidationRejects | src/main/java/org/pogonin/shortlinkservice/api/dto/in/LinkRequest.java:22-61 | with well-formed fields, a request is rejected exactly when it is immortal (no TTL and no limit) or its TTL exceeds 60 days |
| LinkRequests.DefaultsAreValid | src/main/java/org/pogonin/shortlinkservice/api/dto/in/LinkRequest.java:32-47 | the defaults are length 10, rollingExpiration false, TTL 7 days, no alias, no limit, and with a link they pass validation |
| LinkRequests.IsTtlValid | src/main/java/org/pogonin/shortlinkservice/api/dto/in/LinkRequest.java:49-54 | no TTL, or a TTL of at most 60 days in seconds |
| LinkRequests.HasCondition | src/main/java/org/pogonin/shortlinkservice/api/dto/in/LinkRequest.java:56-61 | neither a TTL nor a usage limit (validation requires this to be false) |
| LinkRequests.FieldsValid | src/main/java/org/pogonin/shortlinkservice/api/dto/in/LinkRequest.java:24-40 | link and rollingExpiration non-null, length in [4, 20], a null alias or one of 4 to 20 UTF-16 code units |
| LinkRequests.IsValid | src/main/java/org/pogonin/shortlinkservice/api/dto/in/LinkRequest.java:22-61 | the field constraints, isTtlValid true and hasCondition false |
| LinkRequests.AliasSizeInCodeUnits | src/main/java/org/pogonin/shortlinkservice/api/dto/in/LinkRequest.java:34 | an alias of two supplementary characters (four code units) passes `@Size(4, 20)`; one of eleven (22 code units) fails |
| LinkEntity.PostLoaded | src/main/java/org/pogonin/shortlinkservice/core/entity/Link.java:43-49 | the load counts one use, stamps lastAccess, spends one unit of a non-null limit (a null limit stays null) and changes no other field |
| LinkEntity.Link.constructor | src/main/java/org/pogonin/shortlinkservice/core/entity/Link.java:10-41 | a new entity has no version (it is transient) and no limit, TTL or expiry |
| LinkEntity.Link.Load | src/main/java/org/pogonin/shortlinkservice/core/entity/Link.java:43-49 | a loaded entity holds the row's fields after the post-load hook |
| LinkEntity.Link.Hydrate | src/main/java/org/pogonin/shortlinkservice/core/service/impl/ShortLinkServiceImpl.java:68 | corrected load for the update: the entity holds the stored row's fields unchanged, without the post-load hook |
| LinkEntity.Link.PostLoad | src/main/java/org/pogonin/shortlinkservice/core/entity/Link.java:43-49 | the hook changes the entity's fields as PostLoaded says |
| LinkStore.ValidTable | src/main/java/org/pogonin/shortlinkservice/core/entity/Link.java:13-18 | the table invariant: each row is keyed by its originalLink (the @Id), carries a version, and no two rows share a shortLink (unique) |
| LinkStore.FindRowByShortLink | src/main/java/org/pogonin/shortlinkservice/db/repository/LinkRepository.java:18-19 | the unique row holding the code, present exactly when existsByShortLink holds |
| LinkStore.FindRowByOriginalLink | src/main/java/org/pogonin/shortlinkservice/db/repository/LinkRepository.java:21-22 | the row with that originalLink, present exactly when existsByOriginalLink holds |
| LinkStore.ExistsByShortLink | src/main/java/org/pogonin/shortlinkservice/core/repository/LinkRepository.java:29 | some stored row holds the code |
| LinkStore.ExistsByOriginalLink | src/main/java/org/pogonin/shortlinkservice/core/repository/LinkRepository.java:31 | a row is stored under that originalLink, the id |
| LinkStore.Rank | src/main/java/org/pogonin/shortlinkservice/core/repository/LinkRepository.java:20-23 | one more than the number of rows with strictly more uses |
| LinkStore.StatisticByLink | src/main/java/org/pogonin/shortlinkservice/db/repository/LinkRepository.java:24-32 | empty exactly when no row has the code; otherwise the row's use count and a rank between 1 and the number of rows |
| LinkStore.RankWithin | src/main/java/org/pogonin/shortlinkservice/core/repository/LinkRepository.java:19-27 | a stored row's rank is between 1 and the number of rows |
| LinkStore.RankOrder | src/main/java/org/pogonin/shortlinkservice/db/repository/LinkRepository.java:26-28 | strictly more uses give a strictly smaller rank; equal counts share a rank |
| LinkStore.RankOneIsTop | src/main/java/org/pogonin/shortlinkservice/db/repository/LinkRepository.java:26-28 | rank 1 exactly when no row has more uses |
| LinkStore.StatisticOfRow | src/main/java/org/pogonin/shortlinkservice/db/repository/LinkRepository.java:24-32 | the statistic for a stored row's code is that row's count and the rank of that count |
| LinkStore.ThreeRank | src/main/java/org/pogonin/shortlinkservice/db/repository/LinkRepository.java:26-28 | in a three-row table, the rank of a count is one plus the number of rows with more uses |
| LinkStore.ThreeStatistic | src/main/java/org/pogonin/shortlinkservice/db/repository/LinkRepository.java:24-32 | in a three-row table, each code gets its own count and one plus the number of other rows with more uses |
| LinkStore.RankExamples | src/main/java/org/pogonin/shortlinkservice/db/repository/LinkRepository.java:24-32 | counts {10, 20, 5} rank 2, 1, 3 |
| LinkStore.RankTieExample | src/main/java/org/pogonin/shortlinkservice/db/repository/LinkRepository.java:24-32 | counts {20, 20, 5} rank 1, 1, 3: tied rows share a rank and the next one skips it (competition ranking) |
| LinkStore.Expired | src/main/java/org/pogonin/shortlinkservice/db/repository/LinkRepository.java:39 | a non-null expiration time strictly before the current time |
| LinkStore.WithoutExpired | src/main/java/org/pogonin/shortlinkservice/db/repository/LinkRepository.java:38-40 | deleteAllExpired keeps exactly the rows without an expiry before now, untouched, and the table shrinks by the number of expired rows |
| LinkStore.CleanUpIdempotent | src/main/java/org/pogonin/shortlinkservice/db/repository/LinkRepository.java:38-40 | a second clean-up at the same time finds nothing and changes nothing; clean-up keeps the table's constraints |
| LinkStore.CleanUpNothingExpired | src/main/java/org/pogonin/shortlinkservice/db/repository/LinkRepository.java:39 | when no row has expired, clean-up removes nothing |
| LinkStore.IncrementedUses | src/main/java/org/pogonin/shortlinkservice/core/repository/LinkRepository.java:34-36 | the counter update keeps the rows and adds one use exactly to the rows with that code, changing nothing else |
| LinkStore.IncrementCountsOneUse | src/main/java/org/pogonin/shortlinkservice/core/repository/LinkRepository.java:34-36 | the update adds one use to the one row with that code, leaves an unknown code's table as it was, and keeps the constraints |
| LinkStore.SaveAccepted | src/main/java/org/pogonin/shortlinkservice/core/entity/Link.java:13-35 | a new entity is inserted only when neither its id nor its code is stored; a versioned one is merged only over its own row at the same version, with no other row holding its code |
| LinkStore.Persisted | src/main/java/org/pogonin/shortlinkservice/core/entity/Link.java:34-35 | a written row has version 0 when inserted and one more per merge flush; nothing else changes |
| LinkStore.SaveKeepsTableValid | src/main/java/org/pogonin/shortlinkservice/core/entity/Link.java:13-18 | an accepted save keeps ids and short codes unique |
| LinkStore.DuplicateRejected | src/main/java/org/pogonin/shortlinkservice/core/entity/Link.java:13-18 | a new record repeating a stored originalLink or shortLink is refused |
| LinkStore.LinkRepository.constructor | src/main/java/org/pogonin/shortlinkservice/core/repository/LinkRepository.java:14-15 | a new repository has an empty table |
| LinkStore.LinkRepository.FindByShortLink | src/main/java/org/pogonin/shortlinkservice/core/repository/LinkRepository.java:17 | null exactly when no row has the code; otherwise a fresh entity holding the loaded row |
| LinkStore.LinkRepository.FindById | src/main/java/org/pogonin/shortlinkservice/core/repository/LinkRepository.java:15 | null exactly when no row has that id; otherwise a fresh entity holding the loaded row |
| LinkStore.LinkRepository.Save | src/main/java/org/pogonin/shortlinkservice/core/repository/LinkRepository.java:15 | a save is accepted under the insert and merge rules and then writes the persisted row; a refused save changes nothing |
| LinkStore.LinkRepository.Delete | src/main/java/org/pogonin/shortlinkservice/core/service/impl/ShortLinkServiceImpl.java:43 | delete removes the entity's row |
| LinkStore.LinkRepository.DeleteAllExpired | src/main/java/org/pogonin/shortlinkservice/db/repository/LinkRepository.java:38-40 | removes the expired rows and returns how many it removed |
| LinkStore.LinkRepository.UpdateNumberOfUsesByShortLink | src/main/java/org/pogonin/shortlinkservice/core/repository/LinkRepository.java:34-36 | the table becomes IncrementedUses of itself |
| ShortLinks.LinkError.Message | src/main/java/org/pogonin/shortlinkservice/core/exception/LinkNotFoundException.java:9 | "Link not found: " followed by the key; "Alias " + alias + " already exists!"; "Link already exist"; "Unable to generate unique link" (the messages of ShortLinkServiceImpl.java lines 98, 113 and 60) |
| ShortLinks.CodeOf | src/main/java/org/pogonin/shortlinkservice/core/utils/impl/UUIDCompressUtils.java:13-19 | for a length from 0 to 22, compress does not throw and returns a code of exactly that length |
| ShortLinks.GeneratedCodes | src/main/java/org/pogonin/shortlinkservice/core/service/impl/ShortLinkServiceImpl.java:86 | the i-th compress call with the i-th UUID gives the i-th code, of the requested length |
| ShortLinks.AttemptBudget | src/main/java/org/pogonin/shortlinkservice/core/service/impl/ShortLinkServiceImpl.java:85 | the number of rounds `attempt < MAX_ATTEMPT` allows: MAX_ATTEMPT, or none when it is negative |
| ShortLinks.FirstFree | src/main/java/org/pogonin/shortlinkservice/core/service/impl/ShortLinkServiceImpl.java:84-93 | the first candidate no row holds, with every earlier one taken; or none, exactly when all within the budget are taken |
| ShortLinks.ChooseCode | src/main/java/org/pogonin/shortlinkservice/core/service/impl/ShortLinkServiceImpl.java:84-103 | the alias after one check (AliasTaken when stored), else the first free generated code within MAX_ATTEMPT, else GenerateFailed, with the calls made |
| ShortLinks.AliasPath | src/main/java/org/pogonin/shortlinkservice/core/service/impl/ShortLinkServiceImpl.java:95-103 | the alias path makes one check and no generator call, and takes the alias exactly when it is free, else AliasTaken |
| ShortLinks.GeneratedPath | src/main/java/org/pogonin/shortlinkservice/core/service/impl/ShortLinkServiceImpl.java:84-93 | as many generator calls as checks, at most MAX_ATTEMPT; success on a free code after only taken codes; GenerateFailed after exactly MAX_ATTEMPT attempts exactly when all are taken |
| ShortLinks.FilledExpiration | src/main/java/org/pogonin/shortlinkservice/core/service/impl/ShortLinkServiceImpl.java:117-123 | fillLinkExpiration: ttl and usageLimit from the request, expiry now + ttl (none without a TTL), the rolling flag; every other field kept |
| ShortLinks.NewLink | src/main/java/org/pogonin/shortlinkservice/core/service/impl/ShortLinkServiceImpl.java:52-55 | the new entity: the request's URL, zero uses, no code yet, not persisted, then filled as fillLinkExpiration does |
| ShortLinks.ExpirationTime | src/main/java/org/pogonin/shortlinkservice/core/service/impl/ShortLinkServiceImpl.java:121 | no expiry exactly when there is no TTL |
| ShortLinks.CreatedRecord | src/main/java/org/pogonin/shortlinkservice/core/service/impl/ShortLinkServiceImpl.java:52-55 | a created record has no uses, version 0, limit, TTL and rolling flag from the request, expiry now + ttl or none; from a valid request it is mortal and expires within 60 days |
| ShortLinks.UpdatedRecord | src/main/java/org/pogonin/shortlinkservice/core/service/impl/ShortLinkServiceImpl.java:66-73 | an updated record keeps its id, counts the load's use, takes the new code, limit, TTL, expiry and flag, and is written by one merge flush (one version step) |
| ShortLinks.CorrectedUpdatedRecord | src/main/java/org/pogonin/shortlinkservice/core/service/impl/ShortLinkServiceImpl.java:66-73 | corrected: an update over the stored row keeps its use count and last access, takes the new code, limit, TTL, expiry and flag, and is written by one merge flush (one version step) |
| ShortLinks.UpdateCountsLoadCounterexample | src/main/java/org/pogonin/shortlinkservice/core/service/impl/ShortLinkServiceImpl.java:68 | on the unit test's row with 10 uses, the update as written stores 11 uses and the corrected update 10 |
| ShortLinks.LimitReached | src/main/java/org/pogonin/shortlinkservice/core/service/impl/ShortLinkServiceImpl.java:42 | the loaded entity has a usage limit no greater than its use count |
| ShortLinks.AfterResolve | src/main/java/org/pogonin/shortlinkservice/core/service/impl/ShortLinkServiceImpl.java:40-44 | one resolve as written: the row is deleted when the loaded entity has reached its limit, else the loaded entity is written back |
| ShortLinks.ResolveDeletes | src/main/java/org/pogonin/shortlinkservice/core/service/impl/ShortLinkServiceImpl.java:40-43 | composed with the load, a resolve deletes a row with limit L and u uses exactly when L <= u + 2; otherwise the row gains a use, a stamp and one unit less of limit |
| ShortLinks.ServedAsWritten | src/main/java/org/pogonin/shortlinkservice/core/service/impl/ShortLinkServiceImpl.java:39-45 | how many of `calls` consecutive resolves return the URL, each applying AfterResolve to the row the previous one left |
| ShortLinks.AsWrittenServesHalf | src/main/java/org/pogonin/shortlinkservice/core/service/impl/ShortLinkServiceImpl.java:42-43 | as written, a row with limit L and u uses answers only (L - u + 1) / 2 more resolves |
| ShortLinks.BudgetSpent | src/main/java/org/pogonin/shortlinkservice/core/service/impl/ShortLinkServiceImpl.java:42 | corrected check: the loaded entity's remaining limit, already reduced by this load, has reached 0 |
| ShortLinks.CorrectedAfterResolve | src/main/java/org/pogonin/shortlinkservice/core/service/impl/ShortLinkServiceImpl.java:40-44 | one resolve with the corrected check: deleted when the budget is spent, else the loaded entity is written back |
| ShortLinks.ServedCorrected | src/main/java/org/pogonin/shortlinkservice/core/service/impl/ShortLinkServiceImpl.java:39-45 | how many of `calls` consecutive resolves return the URL under the corrected check |
| ShortLinks.CorrectedServesLimit | src/main/java/org/pogonin/shortlinkservice/core/service/impl/ShortLinkServiceImpl.java:42-43 | with the corrected check, a row with limit L answers exactly L more resolves |
| ShortLinks.UnlimitedStays | src/main/java/org/pogonin/shortlinkservice/core/service/impl/ShortLinkServiceImpl.java:42 | a row without a usage limit is never deleted by a resolve |
| ShortLinks.LimitTwoCounterexample | src/main/java/org/pogonin/shortlinkservice/core/service/impl/ShortLinkServiceImpl.java:42-43 | a new link with limit 2 is deleted by its first resolve, and of three resolves one succeeds (two with the corrected check) |
| ShortLinks.ShortLinkService.constructor | src/main/java/org/pogonin/shortlinkservice/core/service/impl/ShortLinkServiceImpl.java:27-35 | the service holds the repository, the host and MAX_ATTEMPT |
| ShortLinks.ShortLinkService.GetOriginalLink | src/main/java/org/pogonin/shortlinkservice/core/service/impl/ShortLinkServiceImpl.java:39-45 | NotFound with the code, and nothing changed, for an unknown code. Otherwise it returns the original URL, even when the row is deleted. The row is deleted when the loaded limit is at most the loaded count; otherwise the counted and stamped row is written back |
| ShortLinks.ShortLinkService.GetOriginalLinkCorrected | src/main/java/org/pogonin/shortlinkservice/core/service/impl/ShortLinkServiceImpl.java:39-45 | the same, with the corrected limit check |
| ShortLinks.ShortLinkService.GenerateShortLink | src/main/java/org/pogonin/shortlinkservice/core/service/impl/ShortLinkServiceImpl.java:49-61 | AlreadyExist with the stored code and no calls when the URL is shortened; otherwise the code choice's counts, and on success the host plus code with exactly the new record inserted; on failure its error and no change |
| ShortLinks.ShortLinkService.ChangeShortLink | src/main/java/org/pogonin/shortlinkservice/core/service/impl/ShortLinkServiceImpl.java:66-76 | NotFound with the URL and no calls when absent; otherwise the code choice's counts, and on success the host plus code with the loaded row refilled and re-coded; on failure its error and no change |
| ShortLinks.ShortLinkService.ChangeShortLinkCorrected | src/main/java/org/pogonin/shortlinkservice/core/service/impl/ShortLinkServiceImpl.java:66-76 | the same, with the stored row refilled and re-coded and its use count and last access untouched |
| ShortLinks.ShortLinkService.GetLinkStatistic | src/main/java/org/pogonin/shortlinkservice/core/service/impl/ShortLinkServiceImpl.java:80-82 | NotFound with the code exactly when no row has it; otherwise the statistic of the store |
| ShortLinks.ShortLinkService.TryCompress | src/main/java/org/pogonin/shortlinkservice/core/service/impl/ShortLinkServiceImpl.java:84-93 | the loop stops at the first free generated code within MAX_ATTEMPT, sets it and reports the attempts; else MAX_ATTEMPT attempts and the entity unchanged |
| ShortLinks.ShortLinkService.TryGenerateShortLink | src/main/java/org/pogonin/shortlinkservice/core/service/impl/ShortLinkServiceImpl.java:95-103 | the alias or the generated code as the code choice says, AliasTaken for a taken alias, false when generation failed |
| ShortLinks.ShortLinkService.ThrowIfOriginalLinkExist | src/main/java/org/pogonin/shortlinkservice/core/service/impl/ShortLinkServiceImpl.java:109-115 | AlreadyExist carrying the stored code exactly when the URL is already in the table |
| ShortLinks.ShortLinkService.FillLinkExpiration | src/main/java/org/pogonin/shortlinkservice/core/service/impl/ShortLinkServiceImpl.java:117-123 | TTL, limit and rolling flag copied from the request; expiry now + ttl, or none without a TTL |
| ShortLinks.ShortLinkService.SaveAndReturnShortLink | src/main/java/org/pogonin/shortlinkservice/core/service/impl/ShortLinkServiceImpl.java:125-127 | the entity is written and the host followed by its code is returned |

## Left out

- HTTP routing, redirects, OpenAPI annotations and the mapping of exceptions to HTTP responses and messages: transport only, no lifecycle logic. The error datatype stops before that layer.
- The scheduled cleaner (LinkCleanerService): its only logic is one `deleteAllExpired(now)` call, which `LinkRepository.DeleteAllExpired` models. Its cron trigger and logging are left out.
- **Concurrency.** Pessimistic locks, optimistic-lock retries and interleaved transactions are left out. Operations are sequential, and `@Version` appears only as the version check in `save`.
- `@CreationTimestamp` and `@UpdateTimestamp`: they are not read by any core logic.
- `UUID.randomUUID()` and `LocalDateTime.now()`: they are parameters, as is the configured host and MAX_ATTEMPT. The model accepts any UUID, while `randomUUID` fixes the version nibble (4) and the variant bits, so only 122 of the 128 bits vary. Every property proved for all UUIDs holds for those; `UuidPackingIsBijective` is about all UUID values, not about what `randomUUID` draws.
- LinkStore.LinkRepository.FindById: every call loads the row again into a fresh entity and runs `@PostLoad`. The first-level cache (persistence context) is not modelled. Within one transaction, JPA returns the entity it already manages, without a second load or hook (LinkRepositoryTest.java lines 45-59 and 210-223 see 0 uses after a save and a find). Each service operation finds its entity once, at the start of its transaction, so the service contracts are unaffected.
- LinkStore.LinkRepository.FindByShortLink: the same as FindById. Each call is a fresh load with `@PostLoad`; a second find in the same transaction, which JPA answers from the persistence context, is not modelled.
- ShortLinks.ShortLinkService.ChangeShortLink: the model counts one version step per update. In the source the entity `findById` returns is already dirty (`@PostLoad` changed it) when `existsByShortLink` runs; under Hibernate's FlushMode AUTO that query first flushes it, writing an intermediate row and raising the version, and the commit flush raises it again, so a successful update whose code choice ran a query ends at version + 2. Query-time flushes are not modelled; the same holds for `ChangeShortLinkCorrected` whenever `fillLinkExpiration` changes a field.
- **Time precision.** `Duration` and timestamps are whole seconds; sub-second parts are not modelled. Timestamps are unbounded integers: `LocalDateTime`'s range (years -999999999 to 999999999) is not modelled, so the `DateTimeException` that `now().plus(ttl)` throws for a TTL far enough below zero (`isTtlValid` bounds the TTL only from above) is not modelled either; `ShortLinks.ExpirationTime` then gives `now + ttl` and the create or update succeeds where the source rolls back. `LocalDateTime.now()` is one value per operation; the source reads the clock separately in the hook and in `fillLinkExpiration`.
- LinkEntity.PostLoaded: `numberOfUses` is an unbounded integer. The `Long` wrap-around after 2^63 loads is not modelled.
- Bean Validation itself: only the predicates it evaluates are modelled. The service receives validated requests, so its methods require a non-null link and rolling flag and, on the generated path, a length that `substring` accepts. An out-of-range length would throw from `substring`, which the model does not represent.
- ShortLinks.ShortLinkService.SaveAndReturnShortLink: requires the save to be accepted. In the sequential model the preceding checks guarantee it; the constraint violation a concurrent insert could cause is not modelled.
- ShortLinks.ShortLinkService.ThrowIfOriginalLinkExist: the entity `findById` loads there is discarded. Its post-load changes are rolled back with the failing transaction, so the table is not changed.
- The `Base64.getUrlEncoder` API beyond unpadded encoding of octets (padding, line breaks, other alphabets).
- **String encoding.** Strings are sequences of Unicode scalar values, so a Java string holding an unpaired surrogate is not represented. Where the source measures a string (`@Size` on the alias) the model counts UTF-16 code units with `Utf16Length`, as `String.length()` does.

## Findings

| source | as written | input that shows it | evidently intended | confidence | as-written member | corrected member |
|---|---|---|---|---|---|---|
| src/main/java/org/pogonin/shortlinkservice/core/service/impl/ShortLinkServiceImpl.java:42 | `@PostLoad` already counted this use and spent one unit of the limit, then `usageLimit <= numberOfUses` compares the two, so every resolve closes the gap by two and a limit of L serves about L/2 resolves | a new link with usage limit 2: the first resolve loads uses 1 and limit 1, so deletes it, and the second resolve gets NotFound | with usage limit N, the N-th resolve still returns the URL and the N+1-th gets NotFound | medium, not executed | ShortLinks.AsWrittenServesHalf | ShortLinks.CorrectedServesLimit |
| src/main/java/org/pogonin/shortlinkservice/core/service/impl/ShortLinkServiceImpl.java:68 | `changeShortLink` loads the link with `findById`, which runs `@PostLoad`; the commit writes the changed entity back, so an update counts as a use and stamps `lastAccess` | the unit test's link with 10 uses and no limit: after an update the row holds 11 uses | an update keeps the use count (10, as ShortLinkServiceImplTest.java lines 256 and 304 expect) | medium, not executed | ShortLinks.UpdateCountsLoadCounterexample | ShortLinks.CorrectedUpdatedRecord |
