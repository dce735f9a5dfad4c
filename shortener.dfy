/** The shortening service: validation, de-duplication, alias generation and
    the lookups and in-place updates of stored records. */
module Shortener {
  import opened Wrappers
  import opened Alias
  import opened Expiration
  import opened Repository

  /** The service's exceptions. */
  datatype Error = InvalidUrl | UrlAlreadyPresent | UrlDoesNotExist

  /** The key under which a resolved destination is returned. */
  const DestinationKey: string := "Destination Url"

  /** The `day` that shortening passes to the expiration rule; the
      fresh-record branch ignores it. */
  const FreshRecordDays: int := 10

  /** What the service keeps true of its store: `issued[i]` is the counter
      value record i's alias was generated from. Records carry the ids the
      store assigned in order, each short URL is the prefix followed by the
      alias of a counter value already taken, values were taken in increasing
      order, and every record has an expiration. */
  ghost predicate Consistent(urlPath: string, records: seq<UrlEntity>, issued: seq<nat>, counter: nat)
  {
    && |issued| == |records|
    && (forall i :: 0 <= i < |records| ==> records[i].id == Some(i + 1))
    && (forall i :: 0 <= i < |records| ==> records[i].shortenUrl == urlPath + Encode(issued[i]))
    && (forall i :: 0 <= i < |records| ==> records[i].expirationTime.Some?)
    && (forall i :: 0 <= i < |issued| ==> issued[i] < counter)
    && (forall i, j :: 0 <= i < j < |issued| ==> issued[i] < issued[j])
  }

  /** Short URLs built from distinct counter values under one prefix differ. */
  lemma ShortUrlInjective(urlPath: string, m: nat, n: nat)
    requires m != n
    ensures urlPath + Encode(m) != urlPath + Encode(n)
  {
    EncodeInjective(m, n);
    assert (urlPath + Encode(m))[|urlPath|..] == Encode(m);
    assert (urlPath + Encode(n))[|urlPath|..] == Encode(n);
  }

  /** No two records share a short URL, although the store does not enforce it. */
  lemma ShortUrlsUnique(urlPath: string, records: seq<UrlEntity>, issued: seq<nat>, counter: nat)
    requires Consistent(urlPath, records, issued, counter)
    ensures forall i, j :: 0 <= i < |records| && 0 <= j < |records| && i != j ==>
      records[i].shortenUrl != records[j].shortenUrl
  {
    forall i, j | 0 <= i < |records| && 0 <= j < |records| && i != j
      ensures records[i].shortenUrl != records[j].shortenUrl
    {
      ShortUrlInjective(urlPath, issued[i], issued[j]);
    }
  }

  /** Appending a record under the alias of the current counter value keeps the
      store consistent once the counter has moved on; its short URL was not in
      use, so a lookup of it finds exactly the new record. */
  lemma IssueNext(urlPath: string, records: seq<UrlEntity>, issued: seq<nat>, counter: nat, e: UrlEntity)
    requires Consistent(urlPath, records, issued, counter)
    requires e.id == Some(|records| + 1) && e.shortenUrl == urlPath + Encode(counter) && e.expirationTime.Some?
    ensures !HasShortenUrl(records, e.shortenUrl)
    ensures Consistent(urlPath, records + [e], issued + [counter], counter + 1)
    ensures FindByShortenUrl(records + [e], e.shortenUrl) == Some(|records|)
  {
    forall i | 0 <= i < |records| ensures records[i].shortenUrl != e.shortenUrl {
      ShortUrlInjective(urlPath, issued[i], counter);
    }
    FindAppended(records, e);
  }

  /** Saving a changed copy of a stored record, with its id, short URL and an
      expiration kept, overwrites that record in place and keeps the store
      consistent. */
  lemma SaveReplaces(urlPath: string, records: seq<UrlEntity>, issued: seq<nat>, counter: nat, i: nat, e: UrlEntity)
    requires Consistent(urlPath, records, issued, counter)
    requires i < |records|
    requires e.id == records[i].id && e.shortenUrl == records[i].shortenUrl && e.expirationTime.Some?
    ensures Save(records, e).0 == records[i := e]
    ensures Consistent(urlPath, records[i := e], issued, counter)
  {
    assert HasId(records, i + 1);
  }

  /** Replacing a record's destination keeps the store consistent, and a lookup
      of its short URL then finds that record with the new destination. */
  lemma UpdateThenResolve(urlPath: string, records: seq<UrlEntity>, issued: seq<nat>, counter: nat, i: nat, destination: string)
    requires Consistent(urlPath, records, issued, counter)
    requires i < |records|
    ensures Consistent(urlPath, records[i := records[i].(fullUrl := destination)], issued, counter)
    ensures FindByShortenUrl(records[i := records[i].(fullUrl := destination)], records[i].shortenUrl) == Some(i)
  {
    var updated := records[i := records[i].(fullUrl := destination)];
    ShortUrlsUnique(urlPath, updated, issued, counter);
    FindUnique(updated, i);
  }

  class UrlService {
    /** The configured prefix of every short URL. */
    const urlPath: string
    /** URL syntax validation, supplied by a library. */
    const isValidUrl: string -> bool
    const calendar: Calendar
    /** The process-wide counter, shared with every other service instance. */
    const generator: AliasGenerator
    /** The repository's records, in insertion order. */
    var records: seq<UrlEntity>
    ghost var issued: seq<nat>

    ghost predicate Valid()
      reads this, generator
    {
      Consistent(urlPath, records, issued, generator.counter)
    }

    constructor (urlPath: string, isValidUrl: string -> bool, calendar: Calendar, generator: AliasGenerator)
      ensures this.urlPath == urlPath && this.isValidUrl == isValidUrl
      ensures this.calendar == calendar && this.generator == generator
      ensures records == [] && Valid()
    {
      this.urlPath := urlPath;
      this.isValidUrl := isValidUrl;
      this.calendar := calendar;
      this.generator := generator;
      records := [];
      issued := [];
    }

    /** Creates a record for a valid destination not yet stored, under the
        prefix followed by a fresh alias, and returns the whole short URL. */
    method ShortenUrl(fullUrl: string, now: Timestamp) returns (r: Result<string, Error>)
      requires Valid()
      modifies this, generator
      ensures Valid()
      ensures !isValidUrl(fullUrl) ==> r == Failure(InvalidUrl)
      ensures isValidUrl(fullUrl) && HasFullUrl(old(records), fullUrl) ==> r == Failure(UrlAlreadyPresent)
      ensures r.Failure? ==> records == old(records) && generator.counter == old(generator.counter)
      ensures r.Success? <==> isValidUrl(fullUrl) && !HasFullUrl(old(records), fullUrl)
      ensures r.Success? ==>
        && generator.counter == old(generator.counter) + 1
        && r.value == urlPath + Encode(old(generator.counter))
        && !HasShortenUrl(old(records), r.value)
        && records == old(records) + [UrlEntity(Some(|old(records)| + 1), fullUrl, r.value,
                                                Some(calendar.addMonths(now, DefaultMonths)))]
    {
      if !isValidUrl(fullUrl) {
        return Failure(InvalidUrl);
      }
      if FindByFullUrl(records, fullUrl).Some? {
        return Failure(UrlAlreadyPresent);
      }
      ghost var value := generator.counter;
      var alias := generator.GenerateUniqueString();
      var finalShortenString := urlPath + alias;
      var entity := UrlEntity(None, fullUrl, finalShortenString, None);
      entity := entity.(expirationTime := Some(GetOrUpdateExpirationDate(calendar, now, FreshRecordDays, None)));
      var (stored, savedEntity) := Save(records, entity);
      IssueNext(urlPath, records, issued, value, savedEntity);
      records := stored;
      issued := issued + [value];
      return Success(savedEntity.shortenUrl);
    }

    /** Points an existing short URL at a new valid destination. The source
        does not handle a short URL with no record, so callers must not pass one. */
    method UpdateDestinationUrl(shortUrl: string, destinationUrl: string) returns (r: Result<bool, Error>)
      requires Valid()
      requires isValidUrl(destinationUrl) ==> HasShortenUrl(records, urlPath + shortUrl)
      modifies this
      ensures Valid()
      ensures !isValidUrl(destinationUrl) ==> r == Failure(InvalidUrl) && records == old(records)
      ensures isValidUrl(destinationUrl) ==>
        var i := FindByShortenUrl(old(records), urlPath + shortUrl).value;
        && r == Success(true)
        && records == old(records)[i := old(records)[i].(fullUrl := destinationUrl)]
    {
      var finalShortUrl := urlPath + shortUrl;
      if !isValidUrl(destinationUrl) {
        return Failure(InvalidUrl);
      }
      var i := FindByShortenUrl(records, finalShortUrl).value;
      var entity := records[i].(fullUrl := destinationUrl);
      var (stored, _) := Save(records, entity);
      SaveReplaces(urlPath, records, issued, generator.counter, i, entity);
      UpdateThenResolve(urlPath, records, issued, generator.counter, i, destinationUrl);
      records := stored;
      return Success(true);
    }

    /** Resolves a short URL: the destination of the record stored under the
        prefix followed by `shortUrl`, put into `result` under DestinationKey.
        The expiration is not consulted. */
    method GetDestinationUrl(shortUrl: string, result: map<string, string>) returns (r: Result<map<string, string>, Error>)
      ensures r.Failure? <==> !HasShortenUrl(records, urlPath + shortUrl)
      ensures r.Failure? ==> r.error == UrlDoesNotExist
      ensures r.Success? ==>
        exists i :: 0 <= i < |records| && records[i].shortenUrl == urlPath + shortUrl
          && r.value == result[DestinationKey := records[i].fullUrl]
    {
      var finalShortUrl := urlPath + shortUrl;
      var found := FindByShortenUrl(records, finalShortUrl);
      if found.None? {
        return Failure(UrlDoesNotExist);
      }
      return Success(result[DestinationKey := records[found.value].fullUrl]);
    }

    /** Moves the expiration of an existing short URL by `day` days. */
    method UpdateExpirationDate(shortUrl: string, day: int, now: Timestamp) returns (r: Result<bool, Error>)
      requires Valid()
      modifies this
      ensures Valid()
      ensures !HasShortenUrl(old(records), urlPath + shortUrl) ==>
        r == Failure(UrlDoesNotExist) && records == old(records)
      ensures HasShortenUrl(old(records), urlPath + shortUrl) ==>
        var i := FindByShortenUrl(old(records), urlPath + shortUrl).value;
        && r == Success(true)
        && old(records)[i].expirationTime.Some?
        && records == old(records)[i := old(records)[i].(expirationTime := Some(old(records)[i].expirationTime.value + day))]
    {
      var finalShortUrl := urlPath + shortUrl;
      var found := FindByShortenUrl(records, finalShortUrl);
      if found.None? {
        return Failure(UrlDoesNotExist);
      }
      var i := found.value;
      var entity := records[i].(expirationTime := Some(GetOrUpdateExpirationDate(calendar, now, day, records[i].expirationTime)));
      var (stored, _) := Save(records, entity);
      SaveReplaces(urlPath, records, issued, generator.counter, i, entity);
      records := stored;
      return Success(true);
    }
  }
}
