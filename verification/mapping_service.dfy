/**
 The mapping service: the three request handlers (shorten, redirect, delete)
 as pure functions from the table to an outcome and, for the two that write,
 the new table. HTTP status codes become the `Error` values below.
 */
module MappingService {
  import opened AliasGenerator
  import opened MappingStore

  /** `InvalidInput` is the 400 "Empty URL" reply; `NotFound` the two 404 replies. */
  datatype Error = InvalidInput | NotFound

  datatype Result<T> = Ok(value: T) | Err(error: Error)

  /** The body of a successful shorten reply; `created` distinguishes
      "Short URL generated" (true) from "Key already exists" (false). */
  datatype Shortened = Shortened(originalUrl: string, shortUrl: string, created: bool)

  /** A handler's reply together with the table after the request. */
  datatype Outcome<T> = Outcome(result: Result<T>, db: Store)

  /** The prefix both shorten and redirect put in front of a token. */
  const BaseUrl: string := "http://localhost:8000/"

  /** Number of hex digits kept from the digest. */
  const HashLength: nat := 7

  /** The alias of a URL: the first seven hex digits of its SHA-256 digest. */
  function Token(sha256: Sha256, url: string): (t: string)
    ensures |t| == HashLength && IsHexString(t)
    ensures t <= sha256(url)
  {
    Sha256TokenShape(sha256, url, HashLength);
    GenerateHash(sha256, url, HashLength)
  }

  /** The short URL under which a token is stored and looked up. */
  function ShortUrlFor(token: string): string {
    BaseUrl + token
  }

  /** Distinct tokens give distinct short URLs: the base prefix can be stripped. */
  lemma ShortUrlForInjective(t1: string, t2: string)
    ensures ShortUrlFor(t1) == ShortUrlFor(t2) ==> t1 == t2
  {
    if ShortUrlFor(t1) == ShortUrlFor(t2) {
      assert t1 == ShortUrlFor(t1)[|BaseUrl|..];
      assert t2 == ShortUrlFor(t2)[|BaseUrl|..];
    }
  }

  /** `shorten_url`: reject the empty URL; reuse the oldest record for a URL
      already stored; otherwise append one new record for it. */
  function Shorten(sha256: Sha256, db: Store, url: string): (o: Outcome<Shortened>)
    ensures o.result.Err? <==> url == []
    ensures url == [] ==> o.result.error == InvalidInput && o.db == db
    ensures forall k :: url != [] && IsFirstMatch(db, OriginalIs(url), k) ==>
      o == Outcome(Ok(Shortened(db[k].originalUrl, db[k].shortUrl, false)), db)
    ensures url != [] && !Occurs(db, OriginalIs(url)) ==>
      && |o.db| == |db| + 1
      && o.db[..|db|] == db
      && o.db[|db|] == Record(url, ShortUrlFor(Token(sha256, url)))
      && o.result == Ok(Shortened(url, o.db[|db|].shortUrl, true))
  {
    if url == [] then
      Outcome(Err(InvalidInput), db)
    else
      var found := Search(db, OriginalIs(url));
      SearchFindsFirstMatch(db, OriginalIs(url));
      if found != [] then
        Outcome(Ok(Shortened(found[0].originalUrl, found[0].shortUrl, false)), db)
      else
        var shortUrl := ShortUrlFor(Token(sha256, url));
        Outcome(Ok(Shortened(url, shortUrl, true)), Insert(db, Record(url, shortUrl)))
  }

  /** `redirect`: the original URL of the oldest record stored under the
      token's short URL. The table is only read. */
  function Redirect(db: Store, token: string): (r: Result<string>)
    ensures r.Err? <==> !Occurs(db, ShortIs(ShortUrlFor(token)))
    ensures r.Err? ==> r.error == NotFound
    ensures forall k :: IsFirstMatch(db, ShortIs(ShortUrlFor(token)), k) ==> r == Ok(db[k].originalUrl)
  {
    var found := Search(db, ShortIs(ShortUrlFor(token)));
    SearchFindsFirstMatch(db, ShortIs(ShortUrlFor(token)));
    if found != [] then Ok(found[0].originalUrl) else Err(NotFound)
  }

  /** `delete_url`: remove every record whose original or short URL is `url`;
      the reply carries how many went, and is `NotFound` when none did. */
  function Delete(db: Store, url: string): (o: Outcome<nat>)
    ensures o.result.Err? <==> !Occurs(db, EitherIs(url))
    ensures o.result.Err? <==> |o.db| == |db|
    ensures o.result.Err? ==> o.result.error == NotFound && o.db == db
    ensures o.result.Ok? ==> o.result.value > 0 && o.result.value + |o.db| == |db|
    ensures forall rec :: rec in o.db <==> rec in db && rec.originalUrl != url && rec.shortUrl != url
    ensures !Occurs(o.db, EitherIs(url))
  {
    var removal := Remove(db, EitherIs(url));
    if removal.removed > 0 then Outcome(Ok(removal.removed), removal.kept)
    else Outcome(Err(NotFound), db)
  }
}
