/**
 The mapping store: the table of `(original_url, short_url)` documents, kept
 in insertion order, with the three query conditions the service uses and the
 two table operations it performs with them (search and remove).
 */
module MappingStore {

  /** One stored document. */
  datatype Record = Record(originalUrl: string, shortUrl: string)

  /** The whole table, oldest document first. */
  type Store = seq<Record>

  /** The query conditions the service builds: equality on one field, or on either. */
  datatype Query =
    | OriginalIs(url: string)
    | ShortIs(url: string)
    | EitherIs(url: string)

  predicate Matches(q: Query, rec: Record) {
    match q
    case OriginalIs(u) => rec.originalUrl == u
    case ShortIs(u) => rec.shortUrl == u
    case EitherIs(u) => rec.originalUrl == u || rec.shortUrl == u
  }

  /** Some document satisfies the query. */
  predicate Occurs(db: Store, q: Query) {
    exists i :: 0 <= i < |db| && Matches(q, db[i])
  }

  /** `k` is the position of the oldest document satisfying the query. */
  predicate IsFirstMatch(db: Store, q: Query, k: int) {
    && 0 <= k < |db|
    && Matches(q, db[k])
    && forall j :: 0 <= j < k ==> !Matches(q, db[j])
  }

  /** The documents whose match against `q` equals `keep`, in table order.
      With `keep` true this is a search; with `keep` false it is what a
      removal leaves behind. */
  function Filter(db: Store, q: Query, keep: bool): (r: Store)
    ensures |r| <= |db|
    ensures forall rec :: rec in r <==> rec in db && Matches(q, rec) == keep
    ensures |r| == |db| <==> forall i :: 0 <= i < |db| ==> Matches(q, db[i]) == keep
    ensures |r| == |db| ==> r == db
  {
    if db == [] then []
    else if Matches(q, db[0]) == keep then [db[0]] + Filter(db[1..], q, keep)
    else Filter(db[1..], q, keep)
  }

  /** `search`: every document satisfying the query, oldest first. */
  function Search(db: Store, q: Query): Store {
    Filter(db, q, true)
  }

  /** Number of documents satisfying the query. */
  function Count(db: Store, q: Query): nat {
    |Search(db, q)|
  }

  /** `insert`: a new document goes after every existing one. */
  function Insert(db: Store, rec: Record): Store {
    db + [rec]
  }

  /** What `remove` leaves and how many document ids it reports removed. */
  datatype Removal = Removal(kept: Store, removed: nat)

  /** `remove`: drop every document satisfying the query. */
  function Remove(db: Store, q: Query): (r: Removal)
    ensures r.removed == 0 <==> !Occurs(db, q)
    ensures !Occurs(r.kept, q)
    ensures forall rec :: rec in r.kept <==> rec in db && !Matches(q, rec)
  {
    var kept := Filter(db, q, false);
    Removal(kept, |db| - |kept|)
  }

  /** The count `remove` reports is the number of documents the query matches:
      what it drops is exactly what a search with the same query finds. */
  lemma RemoveCountsMatches(db: Store, q: Query)
    ensures Remove(db, q).removed == Count(db, q)
  {
    FilterPartition(db, q);
  }

  /** A search is empty exactly when nothing matches, and when it is not, its
      first result is the oldest matching document. */
  lemma {:induction false} SearchFindsFirstMatch(db: Store, q: Query)
    ensures Search(db, q) == [] <==> !Occurs(db, q)
    ensures forall k :: IsFirstMatch(db, q, k) ==> Search(db, q) != [] && Search(db, q)[0] == db[k]
  {
    if db != [] {
      var tail := db[1..];
      SearchFindsFirstMatch(tail, q);
      if !Matches(q, db[0]) {
        assert Search(db, q) == Search(tail, q);
        assert Occurs(db, q) <==> Occurs(tail, q) by {
          if Occurs(db, q) {
            var i :| 0 <= i < |db| && Matches(q, db[i]);
            assert tail[i - 1] == db[i];
          }
        }
        forall k | IsFirstMatch(db, q, k)
          ensures Search(db, q) != [] && Search(db, q)[0] == db[k]
        {
          assert IsFirstMatch(tail, q, k - 1);
        }
      }
    }
  }

  /** Every document lands in exactly one of the two halves of a partition. */
  lemma {:induction false} FilterPartition(db: Store, q: Query)
    ensures |Filter(db, q, true)| + |Filter(db, q, false)| == |db|
  {
    if db != [] {
      FilterPartition(db[1..], q);
    }
  }

  /** Filtering distributes over concatenation: the documents kept from an
      earlier stretch of the table come before those kept from a later one,
      so the survivors keep their relative order. */
  lemma {:induction false} FilterConcat(a: Store, b: Store, q: Query, keep: bool)
    ensures Filter(a + b, q, keep) == Filter(a, q, keep) + Filter(b, q, keep)
  {
    if a == [] {
      assert a + b == b;
    } else {
      assert (a + b)[1..] == a[1..] + b;
      FilterConcat(a[1..], b, q, keep);
    }
  }

  /** Appending a document at the end of the table appends it to the filter's
      result when it is kept, and changes nothing otherwise. */
  lemma FilterAppend(db: Store, rec: Record, q: Query, keep: bool)
    ensures Filter(db + [rec], q, keep)
         == Filter(db, q, keep) + (if Matches(q, rec) == keep then [rec] else [])
  {
    FilterConcat(db, [rec], q, keep);
    assert [rec][1..] == [];
  }

  /** Two queries that agree on every document select the same documents. */
  lemma {:induction false} FilterCongruence(db: Store, q1: Query, q2: Query, keep: bool)
    requires forall i :: 0 <= i < |db| ==> Matches(q1, db[i]) == Matches(q2, db[i])
    ensures Filter(db, q1, keep) == Filter(db, q2, keep)
  {
    if db != [] {
      assert Matches(q1, db[0]) == Matches(q2, db[0]);
      assert forall i :: 0 <= i < |db[1..]| ==> db[1..][i] == db[i + 1];
      FilterCongruence(db[1..], q1, q2, keep);
    }
  }

  /** Whenever something matches, there is an oldest match. */
  lemma {:induction false} FirstMatchExists(db: Store, q: Query) returns (k: nat)
    requires Occurs(db, q)
    ensures IsFirstMatch(db, q, k)
  {
    if Matches(q, db[0]) {
      k := 0;
    } else {
      var tail := db[1..];
      var i :| 0 <= i < |db| && Matches(q, db[i]);
      assert Matches(q, tail[i - 1]);
      var k' := FirstMatchExists(tail, q);
      k := k' + 1;
      forall j | 0 <= j < k
        ensures !Matches(q, db[j])
      {
        if j > 0 {
          assert db[j] == tail[j - 1];
        }
      }
    }
  }

  /** No two documents share an original URL. */
  predicate DistinctOriginals(db: Store) {
    forall i, j :: 0 <= i < j < |db| ==> db[i].originalUrl != db[j].originalUrl
  }

  /** Dropping documents cannot create a duplicate. */
  lemma {:induction false} FilterKeepsDistinct(db: Store, q: Query, keep: bool)
    requires DistinctOriginals(db)
    ensures DistinctOriginals(Filter(db, q, keep))
  {
    if db != [] {
      var tail := db[1..];
      TailKeepsDistinct(db);
      FilterKeepsDistinct(tail, q, keep);
      var rt := Filter(tail, q, keep);
      if Matches(q, db[0]) == keep {
        HeadNotInTail(db, q, keep);
        var r := [db[0]] + rt;
        assert Filter(db, q, keep) == r;
        forall i, j | 0 <= i < j < |r|
          ensures r[i].originalUrl != r[j].originalUrl
        {
          assert r[j] == rt[j - 1];
          if i > 0 {
            assert r[i] == rt[i - 1];
          }
        }
      }
    }
  }

  /** Dropping the oldest document keeps original URLs distinct. */
  lemma TailKeepsDistinct(db: Store)
    requires db != [] && DistinctOriginals(db)
    ensures DistinctOriginals(db[1..])
  {
  }

  /** In a table without duplicates, the oldest document's original URL does
      not reappear among the documents a query keeps from the rest. */
  lemma HeadNotInTail(db: Store, q: Query, keep: bool)
    requires db != [] && DistinctOriginals(db)
    ensures forall k :: 0 <= k < |Filter(db[1..], q, keep)| ==>
      Filter(db[1..], q, keep)[k].originalUrl != db[0].originalUrl
  {
    var tail := db[1..];
    var rt := Filter(tail, q, keep);
    forall k | 0 <= k < |rt|
      ensures rt[k].originalUrl != db[0].originalUrl
    {
      assert rt[k] in tail;
      var m :| 0 <= m < |tail| && tail[m] == rt[k];
      assert db[m + 1] == tail[m];
    }
  }
}
