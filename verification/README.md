# URL shortener mapping engine, modelled in Dafny

The system maps long URLs to seven-character aliases and resolves aliases back. Its
table holds `(original_url, short_url)` documents. Three request handlers work on it:

- **shorten**: rejects an empty URL. It reuses the oldest record already stored for
  the URL. Otherwise it appends a record whose short URL is
  `http://localhost:8000/` followed by the first seven hex digits of the URL's SHA-256
  digest.
- **redirect**: rebuilds that short URL from a token. It answers with the original URL
  of the oldest record stored under it, or "not found".
- **delete**: removes every record whose original URL or short URL equals the
  argument. It answers "not found" when nothing was removed.

The model is functional:

- The table is a `seq<Record>` in insertion order, oldest first.
- The table's queries are a `Query` datatype. One `Filter` serves as both search and
  remove.
- Each handler is a pure function. It returns a result (`Ok`, or `Err(InvalidInput)` /
  `Err(NotFound)`) and, for the two writers, the new table.
- The SHA-256 digest is a parameter of type `Sha256`: any function from text to 64
  lower-case hex digits. Because it is a mathematical function, token generation is
  deterministic by construction.

Files:

- `alias_generator.dfy`: `generate_hash` and the SHA-256 hex-digest type.
- `mapping_store.dfy`: records, queries, search, insert, remove, and the filter lemmas.
- `mapping_service.dfy`: the three handlers.
- `service_properties.dfy`: properties that span several calls.

Hash collisions are modelled as written. Two URLs whose digests share their first
seven hex digits get the same short URL, and redirect then answers with the older
record. The round-trip lemmas state exactly when resolution gives back the URL that
was shortened: when no record older than the URL's own carries its short URL.

## Model

| member | source | states |
|---|---|---|
| AliasGenerator.GenerateHash | main.py:28-32 | the token is a prefix of the digest's hex string, of exactly the requested length when the digest is long enough, the whole digest when it is shorter, and follows Python slicing for negative lengths |
| AliasGenerator.Sha256TokenShape | main.py:28-32 | a token cut from a SHA-256 hex digest at any length up to 64 is a hex string of exactly that length |
| MappingService.Token | main.py:46-48 | the alias of a URL is seven hex digits long and is a prefix of that URL's SHA-256 digest |
| MappingService.ShortUrlForInjective | main.py:56 | the base prefix can be stripped again, so two tokens rendered to the same short URL are the same token |
| MappingService.Shorten | main.py:34-52 | fails with InvalidInput exactly for the empty URL and then leaves the table alone; for a stored URL it returns the oldest matching record's fields, marks it not created and leaves the table alone; for a new URL it appends exactly one record (URL, base + token) after the unchanged old records and returns that short URL as created |
| MappingService.Redirect | main.py:54-61 | NotFound exactly when no record carries the token's short URL; otherwise the original URL of the oldest record that does |
| MappingService.Delete | main.py:63-70 | NotFound exactly when no record matches on either field, and exactly when the table keeps its length; on success it reports a positive count that, added to what is left, gives the old size; the survivors are exactly the old records matching on neither field, and none matching remains |
| MappingStore.Filter | main.py:40 | a search or removal result is no longer than the table; it holds exactly the table's records whose match equals the requested polarity; it is the whole table exactly when every record has that polarity |
| MappingStore.Remove | main.py:66 | the removed count is zero exactly when nothing matches; nothing matching survives; survivors are exactly the non-matching records |
| MappingStore.RemoveCountsMatches | main.py:66 | the number of records a removal reports is the number of records a search with the same query finds |
| MappingStore.SearchFindsFirstMatch | main.py:40-43 | a search is empty exactly when nothing matches, and otherwise its first element (`result[0]`) is the oldest matching record |
| MappingStore.FirstMatchExists | main.py:41-42 | whenever some record matches there is an oldest matching one |
| MappingStore.FilterPartition | main.py:66 | the records a query keeps and the records it drops add up to the whole table |
| MappingStore.FilterConcat | main.py:66 | filtering a concatenation is the concatenation of the filtered parts, so survivors keep their relative order |
| MappingStore.FilterAppend | main.py:51 | inserting a record at the end adds it at the end of a search it matches and changes no other search |
| MappingStore.FilterCongruence | main.py:66 | two queries that agree on every record select the same records |
| MappingStore.FilterKeepsDistinct | main.py:66 | removing records from a table with no duplicate original URL leaves none |
| ServiceProperties.CountZeroIffAbsent | main.py:40-41 | a search has zero hits exactly when no record matches the query |
| ServiceProperties.ShortenIdempotent | main.py:40-51 | shortening a URL twice returns the same short URL both times; the second call is "already exists" and leaves the table as the first left it; the URL is stored once after the first call if it was new and as often as before otherwise |
| ServiceProperties.ShortenThenRedirect | main.py:46-58 | right after a URL is newly stored its token always resolves, and it resolves to that URL exactly when no older record already had the same short URL |
| ServiceProperties.RoundTripUnlessCollision | main.py:40-58 | on any table reachable by the handlers, shortening a URL and resolving its token gives the URL back exactly when no record older than the URL's own carries the same short URL: for a new URL no record at all, for a stored URL none before its oldest record |
| ServiceProperties.StoredRoundTrip | main.py:40-58 | on a reachable table, the token of a stored URL resolves to that URL exactly when no record before the URL's oldest record carries its short URL |
| ServiceProperties.RedirectOnlyIssuedTokens | main.py:49-61 | on a reachable table a token resolves only if it is the token of the stored URL it resolves to, so tokens never issued are NotFound |
| ServiceProperties.ShortenPreservesConsistent | main.py:34-52 | shorten keeps the table invariant: original URLs non-empty and never stored twice, each short URL derived from its original URL |
| ServiceProperties.DeletePreservesConsistent | main.py:63-70 | delete keeps the same table invariant |
| ServiceProperties.DeleteShortUrlThenRedirect | main.py:56-66 | after deleting a short URL its token is NotFound |
| ServiceProperties.DeleteThenRedirect | main.py:56-66 | after deleting a URL by its original URL, its token is NotFound, on any table where no other URL's record carries that short URL |
| ServiceProperties.DeleteThenShortenCreates | main.py:40-66 | after deleting a URL, shortening it again creates a fresh record with its derived short URL |
| ServiceProperties.DeleteByEitherKey | main.py:66 | on a reachable table, deleting by a URL and deleting by its short URL give the same reply and table, when no other URL shares the short URL and neither string plays the other role in a record |
| ServiceProperties.DeleteKeepsOrder | main.py:66 | delete handles each record on its own: deleting from a concatenation is concatenating the deletions, so survivors keep their order |

## Left out

- HTTP transport is not modelled: FastAPI routing, CORS middleware, the pydantic request body, and rendering replies as JSON, redirect or exception responses. Status codes appear as the `Error` values and the `created` flag (main.py:1-18, 25-26, 44, 52, 59, 61, 68, 70).
- TinyDB persistence of the table to `url.json` and its pretty-printing are I/O and are not modelled. The table is an in-memory sequence, in TinyDB's document-id order.
- SHA-256 itself and the UTF-8 encoding of the input are not modelled. They are a foreign library call, abstracted as the `Sha256` parameter.
- `generate_hash` selects its algorithm by name through `hashlib.new`, which raises for an unknown name. The model fixes the algorithm to SHA-256, the only one the handler passes (main.py:46). The hash length stays a free integer with Python's slicing semantics.
- The uvicorn bootstrap is not modelled (main.py:73-74). Neither are races between concurrent requests on the shared table, since each handler is modelled as one atomic step.
- MappingService.Delete: TinyDB's `remove` returns the list of removed document ids, the handler only tests it for emptiness, and on success it replies with a fixed message (main.py:66-68). The model's `Ok` reply carries the number of removed records instead of that message.
- Store failures are not modelled. TinyDB's `search`, `insert` and `remove` read and write `url.json` (main.py:40, 51, 56, 66). An I/O or JSON-decode error there escapes the handler uncaught, and FastAPI answers with a server error. The model drops these failures together with persistence, so every handler call yields one of its modelled replies.
- The code hard-codes the base URL `http://localhost:8000/` and the token length 7 (main.py:47, 49, 56). The model fixes them as the constants `BaseUrl` and `HashLength`; nothing is configurable.
- The code does not detect hash collisions. So the round trip from shorten to redirect holds only when no record older than the URL's own carries the same short URL, and the model states it with that condition (`ShortenThenRedirect`, `RoundTripUnlessCollision`, `StoredRoundTrip`).
