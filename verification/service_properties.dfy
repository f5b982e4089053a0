/**
 Properties that relate several calls of the service: idempotent shortening,
 the shorten/redirect round trip (and exactly when a hash collision breaks it),
 the table invariant both writers preserve, and how delete interacts with the
 other two handlers.
 */
module ServiceProperties {
  import opened AliasGenerator
  import opened MappingStore
  import opened MappingService

  /** The table a sequence of shorten and delete requests can build: every
      record's original URL is non-empty, its short URL is derived from it,
      and no original URL is stored twice. Short URLs may still coincide. */
  predicate Consistent(sha256: Sha256, db: Store) {
    && (forall i :: 0 <= i < |db| ==>
          db[i].originalUrl != [] && db[i].shortUrl == ShortUrlFor(Token(sha256, db[i].originalUrl)))
    && DistinctOriginals(db)
  }

  /** Nothing matches exactly when the search count is zero. */
  lemma CountZeroIffAbsent(db: Store, q: Query)
    ensures Count(db, q) == 0 <==> !Occurs(db, q)
  {
    SearchFindsFirstMatch(db, q);
  }

  /** Shortening the same URL twice gives the same short URL both times; the
      second call creates nothing and leaves the table as the first left it,
      and the URL is then stored exactly as often as before, or once if it was
      new. */
  lemma ShortenIdempotent(sha256: Sha256, db: Store, url: string)
    requires url != []
    ensures var first := Shorten(sha256, db, url);
            var second := Shorten(sha256, first.db, url);
            && first.result.Ok? && second.result.Ok?
            && second.result.value.shortUrl == first.result.value.shortUrl
            && (first.result.value.created <==> Count(db, OriginalIs(url)) == 0)
            && !second.result.value.created
            && second.db == first.db
            && Count(first.db, OriginalIs(url))
               == (if Count(db, OriginalIs(url)) == 0 then 1 else Count(db, OriginalIs(url)))
  {
    var q := OriginalIs(url);
    var first := Shorten(sha256, db, url);
    CountZeroIffAbsent(db, q);
    if Occurs(db, q) {
      var k := FirstMatchExists(db, q);
      assert first.db == db;
    } else {
      var rec := first.db[|db|];
      assert first.db == db + [rec];
      FilterAppend(db, rec, q, true);
      assert IsFirstMatch(first.db, q, |db|);
    }
  }

  /** The round trip as written: right after a URL is newly stored, its token
      always resolves, and it resolves to that URL exactly when no older record
      already carried the same short URL (a hash collision is not detected, and
      the older record wins). */
  lemma ShortenThenRedirect(sha256: Sha256, db: Store, url: string)
    requires url != [] && !Occurs(db, OriginalIs(url))
    ensures var o := Shorten(sha256, db, url);
            var r := Redirect(o.db, Token(sha256, url));
            && r.Ok?
            && (r == Ok(url) <==> !Occurs(db, ShortIs(ShortUrlFor(Token(sha256, url)))))
  {
    var q := ShortIs(ShortUrlFor(Token(sha256, url)));
    var o := Shorten(sha256, db, url);
    assert o.db == db + [o.db[|db|]];
    if Occurs(db, q) {
      var k := FirstMatchExists(db, q);
      assert IsFirstMatch(o.db, q, k);
      assert db[k].originalUrl != url;
    } else {
      assert IsFirstMatch(o.db, q, |db|);
    }
  }

  /** The round trip on any reachable table, whether the URL was new or
      already stored: the token resolves back to the URL exactly when no record
      older than the URL's own carries its short URL. For a new URL that is no
      record at all; for a stored URL, none before its oldest record. */
  lemma RoundTripUnlessCollision(sha256: Sha256, db: Store, url: string)
    requires Consistent(sha256, db) && url != []
    ensures !Occurs(db, OriginalIs(url)) ==>
      (Redirect(Shorten(sha256, db, url).db, Token(sha256, url)) == Ok(url)
       <==> !Occurs(db, ShortIs(ShortUrlFor(Token(sha256, url)))))
    ensures forall k :: IsFirstMatch(db, OriginalIs(url), k) ==>
      (Redirect(Shorten(sha256, db, url).db, Token(sha256, url)) == Ok(url)
       <==> forall j :: 0 <= j < k ==> db[j].shortUrl != ShortUrlFor(Token(sha256, url)))
  {
    var alias := ShortUrlFor(Token(sha256, url));
    if !Occurs(db, OriginalIs(url)) {
      ShortenThenRedirect(sha256, db, url);
    }
    forall k | IsFirstMatch(db, OriginalIs(url), k)
      ensures Redirect(Shorten(sha256, db, url).db, Token(sha256, url)) == Ok(url)
          <==> forall j :: 0 <= j < k ==> db[j].shortUrl != alias
    {
      StoredRoundTrip(sha256, db, url, k);
    }
  }

  /** The stored-URL half of the round trip: the URL's oldest record at `k`
      carries its short URL, so resolution returns it exactly when no earlier
      record carries that short URL too. */
  lemma StoredRoundTrip(sha256: Sha256, db: Store, url: string, k: int)
    requires Consistent(sha256, db) && url != [] && IsFirstMatch(db, OriginalIs(url), k)
    ensures Redirect(db, Token(sha256, url)) == Ok(url)
        <==> forall j :: 0 <= j < k ==> db[j].shortUrl != ShortUrlFor(Token(sha256, url))
  {
    var q := ShortIs(ShortUrlFor(Token(sha256, url)));
    assert Matches(q, db[k]);
    var m := FirstMatchExists(db, q);
    assert m <= k;
    if m < k {
      assert db[m].originalUrl != url;
    }
  }

  /** A token resolves only if it is the token of a stored URL, and then to
      that URL: tokens the service never issued are `NotFound`. */
  lemma RedirectOnlyIssuedTokens(sha256: Sha256, db: Store, token: string)
    requires Consistent(sha256, db)
    ensures Redirect(db, token).Ok? ==>
      && Occurs(db, OriginalIs(Redirect(db, token).value))
      && token == Token(sha256, Redirect(db, token).value)
  {
    var q := ShortIs(ShortUrlFor(token));
    if Occurs(db, q) {
      var k := FirstMatchExists(db, q);
      ShortUrlForInjective(token, Token(sha256, db[k].originalUrl));
    }
  }

  /** Shortening keeps the table consistent. */
  lemma ShortenPreservesConsistent(sha256: Sha256, db: Store, url: string)
    requires Consistent(sha256, db)
    ensures Consistent(sha256, Shorten(sha256, db, url).db)
  {
  }

  /** Deleting keeps the table consistent. */
  lemma DeletePreservesConsistent(sha256: Sha256, db: Store, url: string)
    requires Consistent(sha256, db)
    ensures Consistent(sha256, Delete(db, url).db)
  {
    var o := Delete(db, url);
    FilterKeepsDistinct(db, EitherIs(url), false);
    forall i | 0 <= i < |o.db|
      ensures o.db[i].originalUrl != [] && o.db[i].shortUrl == ShortUrlFor(Token(sha256, o.db[i].originalUrl))
    {
      assert o.db[i] in db;
    }
  }

  /** Once a short URL is deleted, its token no longer resolves. */
  lemma DeleteShortUrlThenRedirect(db: Store, token: string)
    ensures Redirect(Delete(db, ShortUrlFor(token)).db, token) == Err(NotFound)
  {
  }

  /** Once a URL is deleted by its original URL, its token no longer
      resolves, provided no other URL's record shares that short URL. */
  lemma DeleteThenRedirect(sha256: Sha256, db: Store, url: string)
    requires forall i :: 0 <= i < |db| && db[i].shortUrl == ShortUrlFor(Token(sha256, url)) ==>
               db[i].originalUrl == url
    ensures Redirect(Delete(db, url).db, Token(sha256, url)) == Err(NotFound)
  {
  }

  /** Once a URL is deleted, shortening it again stores it afresh. */
  lemma DeleteThenShortenCreates(sha256: Sha256, db: Store, url: string)
    requires url != []
    ensures Shorten(sha256, Delete(db, url).db, url).result
         == Ok(Shortened(url, ShortUrlFor(Token(sha256, url)), true))
  {
  }

  /** Deleting by a URL and deleting by its short URL remove the same records,
      provided no other URL shares that short URL and neither string plays the
      other role in some record. */
  lemma DeleteByEitherKey(sha256: Sha256, db: Store, url: string)
    requires Consistent(sha256, db)
    requires forall i :: 0 <= i < |db| && db[i].shortUrl == ShortUrlFor(Token(sha256, url)) ==>
               db[i].originalUrl == url
    requires !Occurs(db, ShortIs(url)) && !Occurs(db, OriginalIs(ShortUrlFor(Token(sha256, url))))
    ensures Delete(db, url) == Delete(db, ShortUrlFor(Token(sha256, url)))
  {
    var alias := ShortUrlFor(Token(sha256, url));
    forall i | 0 <= i < |db|
      ensures Matches(EitherIs(url), db[i]) == Matches(EitherIs(alias), db[i])
    {
      var rec := db[i];
      assert rec.shortUrl != url by {
        assert !Matches(ShortIs(url), db[i]);
      }
      assert rec.originalUrl != alias by {
        assert !Matches(OriginalIs(alias), db[i]);
      }
      if rec.originalUrl == url {
        assert rec.shortUrl == alias;
      }
    }
    FilterCongruence(db, EitherIs(url), EitherIs(alias), false);
    assert Remove(db, EitherIs(url)) == Remove(db, EitherIs(alias));
  }

  /** Delete is a filter: it treats every record on its own, and the records
      it keeps stay in their original relative order. */
  lemma DeleteKeepsOrder(a: Store, b: Store, url: string)
    ensures Delete(a + b, url).db == Delete(a, url).db + Delete(b, url).db
  {
    FilterConcat(a, b, EitherIs(url), false);
  }
}
