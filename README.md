# URL shortener: alias generation, expiration rule and record lifecycle

This project models the core of a URL-shortening service in Dafny and proves
properties of the model.

- **Alias generation.** A process-wide counter is read and incremented. Its old
  value is written in base 62 over the alphabet `A–Z a–z 0–9`, least
  significant digit first. The result is right-padded with `'A'` (the digit
  zero) to eight symbols.
- **Expiration rule.** A fresh record expires ten calendar months after now.
  An existing expiration is moved by a given number of days.
- **Shortening service.** It has four operations over a store of records
  (`id`, `fullUrl`, `shortenUrl`, `expirationTime`): shorten a URL, change a
  short URL's destination, resolve a short URL, and change its expiration.

Modules, one per component:

- `Wrappers` (`wrappers.dfy`): `Option` for nullable references and `Result`
  for an operation that may throw.
- `Alias` (`alias.dfy`): the encoder as specification functions (`Digits`,
  `Pad`, `Encode`, and the inverse `Decode`), with lemmas. The static counter
  is the class `AliasGenerator`. Its `GenerateUniqueString` keeps the source's
  two loops and is proved equal to `Encode` of the old counter value.
- `Expiration` (`expiration.dfy`): `GetOrUpdateExpirationDate` over timestamps
  counted in days, with lemmas on its two branches.
- `Repository` (`repository.dfy`): the entity as a datatype. The repository's
  queries and insert-or-update `Save` are functions over a sequence of records.
- `Shortener` (`shortener.dfy`): the class `UrlService`. Its `records` field is
  the store and its methods are the four operations. `Consistent` is the
  invariant the methods keep. The lemmas beside it prove that short URLs are
  unique and that lookups find the record just created or updated.

Environment inputs become parameters or fields:

- the current time is the `now` argument;
- month arithmetic is the `addMonths` function of a `Calendar` value;
- URL validation is the function-valued field `isValidUrl`;
- the configured prefix is the constant field `urlPath`.

Two behaviours of the code are worth stating up front:

- From counter value 62^8 on, the digit loop writes more than eight symbols,
  so aliases grow past eight symbols rather than colliding. The encoding is
  injective for every counter value (`Alias.EncodeInjective`), and an alias
  is exactly eight symbols long only below 62^8 (`Alias.EncodeLength`).
- `updateDestinationUrl` has no not-found check: a valid destination for an
  unknown short URL dereferences a null record. The model states that case
  as a precondition (see "Left out").

## Model

| member | source | states |
|---|---|---|
| Alias.AlphabetSpelled | src/main/java/com/example/UrlShorter/service/UrlService.java:27-28 | the alphabet has 62 symbols, and position d holds A–Z for 0–25, a–z for 26–51 and 0–9 for 52–61 |
| Alias.AlphabetMembership | src/main/java/com/example/UrlShorter/service/UrlService.java:27 | a character occurs in the alphabet if and only if it lies in A–Z, a–z or 0–9 |
| Alias.DigitValue | src/main/java/com/example/UrlShorter/service/UrlService.java:27 | a symbol of the alphabet stands for a digit below 62 at whose position the alphabet holds that symbol |
| Alias.DigitValueOfSymbol | src/main/java/com/example/UrlShorter/service/UrlService.java:145 | the symbol written for digit d is read back as d |
| Alias.Digits | src/main/java/com/example/UrlShorter/service/UrlService.java:144-147 | the digit loop writes only alphabet symbols; it writes nothing exactly for 0, and its last symbol is never the zero digit |
| Alias.Pad | src/main/java/com/example/UrlShorter/service/UrlService.java:148-150 | padding gives length max(n, 8), keeps the input as a prefix, and adds only 'A' |
| Alias.DigitsRoundTrip | src/main/java/com/example/UrlShorter/service/UrlService.java:144-147 | reading the digits little-endian gives back the encoded value |
| Alias.DecodeAppendPad | src/main/java/com/example/UrlShorter/service/UrlService.java:149 | one trailing 'A' does not change the decoded value |
| Alias.DecodePad | src/main/java/com/example/UrlShorter/service/UrlService.java:148-150 | padding with 'A' up to eight symbols does not change the decoded value |
| Alias.EncodeRoundTrip | src/main/java/com/example/UrlShorter/service/UrlService.java:143-152 | every alias uses only alphabet symbols and decodes back to the counter value it came from |
| Alias.EncodeInjective | src/main/java/com/example/UrlShorter/service/UrlService.java:141-153 | distinct counter values give distinct aliases, with no bound on the values |
| Alias.DigitsLength | src/main/java/com/example/UrlShorter/service/UrlService.java:144-147 | a value has at most k digits if and only if it is below 62^k |
| Alias.EncodeLength | src/main/java/com/example/UrlShorter/service/UrlService.java:143-152 | an alias has at least eight symbols, and exactly eight if and only if the value is below 62^8 |
| Alias.EncodeZero | src/main/java/com/example/UrlShorter/service/UrlService.java:144-150 | counter value 0 gives "AAAAAAAA" |
| Alias.AliasGenerator.constructor | src/main/java/com/example/UrlShorter/service/UrlService.java:29 | the counter starts at 0 |
| Alias.AliasGenerator.GenerateUniqueString | src/main/java/com/example/UrlShorter/service/UrlService.java:141-153 | the counter goes up by exactly one, and the result is the alias of the value before the increment |
| Expiration.FreshIgnoresDay | src/main/java/com/example/UrlShorter/common/CommonUtils.java:13-16 | with no current date, the result is now plus ten months, the same for every `day` |
| Expiration.ExtendByDays | src/main/java/com/example/UrlShorter/common/CommonUtils.java:17-20 | with a current date, the result is that date plus exactly `day` days, whatever the clock and the month arithmetic |
| Expiration.ExtendDirection | src/main/java/com/example/UrlShorter/common/CommonUtils.java:20 | `day` is not checked: 0 keeps the date, and a negative (positive) `day` gives an earlier (later) date, both ways round |
| Expiration.ExtensionsCompose | src/main/java/com/example/UrlShorter/common/CommonUtils.java:17-23 | extending by a and then by b gives the same date as extending once by a + b |
| Repository.FindFirst | src/main/java/com/example/UrlShorter/repository/UrlRepository.java:11-12 | the result is the first matching position; there is no result only when no record matches |
| Repository.FindByFullUrl | src/main/java/com/example/UrlShorter/repository/UrlRepository.java:11 | a record is found if and only if some record has the destination, and the record found has it |
| Repository.FindByShortenUrl | src/main/java/com/example/UrlShorter/repository/UrlRepository.java:12 | a record is found if and only if some record has the short URL, and the record found has it |
| Repository.Save | src/main/java/com/example/UrlShorter/repository/UrlRepository.java:10 | the saved entity always has an id. A stored id is overwritten in place; anything else is appended under the next id |
| Repository.FindAppended | src/main/java/com/example/UrlShorter/repository/UrlRepository.java:12 | a record appended under an unused short URL is the one a lookup of that short URL finds |
| Repository.FindUnique | src/main/java/com/example/UrlShorter/repository/UrlRepository.java:12 | when short URLs are unique, looking one up finds exactly the record holding it |
| Shortener.ShortUrlInjective | src/main/java/com/example/UrlShorter/service/UrlService.java:64-65 | the prefix followed by the aliases of two distinct counter values gives two distinct short URLs |
| Shortener.ShortUrlsUnique | src/main/java/com/example/UrlShorter/service/UrlService.java:64-68 | in a consistent store no two records share a short URL |
| Shortener.IssueNext | src/main/java/com/example/UrlShorter/service/UrlService.java:64-68 | the next alias's short URL is unused; appending its record keeps the store consistent; a lookup then finds the new record |
| Shortener.SaveReplaces | src/main/java/com/example/UrlShorter/service/UrlService.java:96-98 | saving a changed copy of a stored record overwrites that record in place and keeps the store consistent |
| Shortener.UpdateThenResolve | src/main/java/com/example/UrlShorter/service/UrlService.java:96-114 | after a destination change, looking up the short URL finds the same record, now with the new destination |
| Shortener.UrlService.constructor | src/main/java/com/example/UrlShorter/service/UrlService.java:43-47 | a service starts over an empty, consistent store and shares the generator it is given |
| Shortener.UrlService.ShortenUrl | src/main/java/com/example/UrlShorter/service/UrlService.java:58-70 | an invalid URL fails with InvalidUrl, and an already stored one with UrlAlreadyPresent. On failure the store and the counter are unchanged. On success the counter goes up by one and exactly one record is appended: the input URL, prefix + fresh alias (not in use before) as short URL, and now + 10 months as expiration. The returned short URL is the stored one |
| Shortener.UrlService.UpdateDestinationUrl | src/main/java/com/example/UrlShorter/service/UrlService.java:93-100 | an invalid destination fails with InvalidUrl before any lookup and leaves the store unchanged; otherwise only the `fullUrl` of the record under prefix + code changes, and the result is true |
| Shortener.UrlService.GetDestinationUrl | src/main/java/com/example/UrlShorter/service/UrlService.java:110-115 | fails with UrlDoesNotExist if and only if no record has prefix + code; otherwise the result map is the input map plus "Destination Url" ↦ that record's destination. The expiration is not consulted |
| Shortener.UrlService.UpdateExpirationDate | src/main/java/com/example/UrlShorter/service/UrlService.java:126-133 | an unknown short URL fails with UrlDoesNotExist and leaves the store unchanged; otherwise only that record's expiration moves by `day` days, and the result is true |

## Left out

- Shortener.UrlService.UpdateDestinationUrl: requires that a valid destination names a stored short URL. The source does not check this. It dereferences a null record and throws a NullPointerException, and the store stays unchanged. That path is not modelled.
- Shortener.UrlService.ShortenUrl: when several records already share the destination (possible after destination updates), the real query fails with a non-unique-result error, not with UrlAlreadyPresent. The model reports UrlAlreadyPresent in that case. Either way the call fails and nothing changes.
- Shortener.UrlService.constructor: starts from an empty store. After a process restart the source's counter returns to 0 while persisted records remain, so new aliases can repeat old ones. The invariant `Consistent` does not hold then, and the model does not cover restarts.
- Shortener.UrlService.GetDestinationUrl: the source puts the destination into a map the caller passes in and returns nothing. The model takes that map as a value and returns the updated copy. The in-place update of the caller's map, and any aliasing of it, are not modelled.
- Repository.FindByFullUrl: the real derived query fails with a non-unique-result error when several records share the destination. The model returns the first of them instead.
- Repository.FindByShortenUrl: the real derived query fails with a non-unique-result error when several records share the short URL. The model returns the first of them. The service's invariant proves this case never arises (`Shortener.ShortUrlsUnique`).
- The HTTP controller (routing, and mapping every exception to a client error) is request plumbing and is not modelled.
- URL syntax validation comes from a library. It is the uninterpreted function value `isValidUrl`.
- Calendar arithmetic comes from a library. Timestamps are whole days, so time of day is dropped. Month addition is the uninterpreted `Calendar.addMonths`. Day addition is integer addition, so daylight-saving shifts within a day are not modelled.
- The reading of the system clock is the `now` parameter.
- Query execution and persistence are not modelled. The repository is a sequence of records. Identity generation assigns `|records| + 1`, which matches a store where records are never deleted; the core has no deletion path.
- `synchronized` on alias generation is not modelled. The counter is one sequential field, and concurrent callers are not modelled.
- The 64-bit counter is a `nat`. Overflow after 2^63 calls is not modelled.
- Prefix configuration and dependency injection are not modelled. The prefix is a constructor argument.
- The two transformer classes copy fields. They are folded into the construction of `UrlEntity` values in `ShortenUrl`.
