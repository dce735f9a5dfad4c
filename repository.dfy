/** The record store: the persisted entity and the repository's queries and
    insert-or-update, over an in-memory sequence of records. */
module Repository {
  import opened Wrappers
  import opened Expiration

  /** A persisted short URL. `id` is absent until the store assigns it;
      `shortenUrl` holds the whole short URL, prefix included. */
  datatype UrlEntity = UrlEntity(id: Option<nat>, fullUrl: string, shortenUrl: string, expirationTime: Option<Timestamp>)

  predicate HasFullUrl(records: seq<UrlEntity>, fullUrl: string)
  {
    exists i :: 0 <= i < |records| && records[i].fullUrl == fullUrl
  }

  predicate HasShortenUrl(records: seq<UrlEntity>, shortenUrl: string)
  {
    exists i :: 0 <= i < |records| && records[i].shortenUrl == shortenUrl
  }

  predicate HasId(records: seq<UrlEntity>, id: nat)
  {
    exists i :: 0 <= i < |records| && records[i].id == Some(id)
  }

  /** Position of the first record that `matches` accepts, if any. */
  function FindFirst(records: seq<UrlEntity>, matches: UrlEntity -> bool): (r: Option<nat>)
    ensures r.Some? ==> r.value < |records| && matches(records[r.value])
    ensures r.Some? ==> forall j :: 0 <= j < r.value ==> !matches(records[j])
    ensures r.None? ==> forall j :: 0 <= j < |records| ==> !matches(records[j])
  {
    if records == [] then None
    else if matches(records[0]) then Some(0)
    else match FindFirst(records[1..], matches)
      case None => None
      case Some(i) => Some(i + 1)
  }

  /** The record for a destination URL, if one exists. */
  function FindByFullUrl(records: seq<UrlEntity>, fullUrl: string): (r: Option<nat>)
    ensures r.Some? <==> HasFullUrl(records, fullUrl)
    ensures r.Some? ==> r.value < |records| && records[r.value].fullUrl == fullUrl
  {
    FindFirst(records, (e: UrlEntity) => e.fullUrl == fullUrl)
  }

  /** The record for a whole short URL, if one exists. */
  function FindByShortenUrl(records: seq<UrlEntity>, shortenUrl: string): (r: Option<nat>)
    ensures r.Some? <==> HasShortenUrl(records, shortenUrl)
    ensures r.Some? ==> r.value < |records| && records[r.value].shortenUrl == shortenUrl
  {
    FindFirst(records, (e: UrlEntity) => e.shortenUrl == shortenUrl)
  }

  /** Insert-or-update: an entity whose id is already stored replaces that
      record; any other entity is appended under the next id. Returns the new
      store and the entity as persisted. */
  function Save(records: seq<UrlEntity>, e: UrlEntity): (saved: (seq<UrlEntity>, UrlEntity))
    ensures saved.1.id.Some? && saved.1 == e.(id := saved.1.id)
    ensures e.id.Some? && HasId(records, e.id.value) ==>
      saved.1 == e &&
      exists i :: 0 <= i < |records| && records[i].id == e.id && saved.0 == records[i := e]
    ensures !(e.id.Some? && HasId(records, e.id.value)) ==>
      saved.1.id == Some(|records| + 1) && saved.0 == records + [saved.1]
  {
    var existing := if e.id.Some? then FindFirst(records, (x: UrlEntity) => x.id == e.id) else None;
    match existing
    case Some(i) => (records[i := e], e)
    case None =>
      var stored := e.(id := Some(|records| + 1));
      (records + [stored], stored)
  }

  /** A record appended under a short URL no other record has is the one a
      lookup of that short URL finds. */
  lemma {:induction false} FindAppended(records: seq<UrlEntity>, e: UrlEntity)
    requires !HasShortenUrl(records, e.shortenUrl)
    ensures FindByShortenUrl(records + [e], e.shortenUrl) == Some(|records|)
  {
    assert (records + [e])[|records|] == e;
  }

  /** When short URLs are unique, a lookup finds the one record holding the
      short URL, whatever its other fields. */
  lemma FindUnique(records: seq<UrlEntity>, i: nat)
    requires i < |records|
    requires forall j, k :: 0 <= j < |records| && 0 <= k < |records| && j != k ==> records[j].shortenUrl != records[k].shortenUrl
    ensures FindByShortenUrl(records, records[i].shortenUrl) == Some(i)
  {
  }
}
