# litesync: the fake Redis client and the bearer-token rule

litesync is a small sync server that runs on a relational database. It has
two pieces with behaviour of their own, and this project models both in Dafny:

- **The map-backed fake Redis client** (`litecache.FakeRedisClient`). It
  stores strings under string keys in an `items` map. `Set` overwrites one
  entry. `Get` returns the stored value, or `""` for an absent key. `Del`
  deletes the listed keys one after another. `FlushAll` replaces the map by
  an empty one. Every operation returns a nil error, and `Set` ignores its
  time-to-live. The struct has no constructor. A zero-value client therefore
  holds a nil map until `FlushAll` runs. Reading a nil map or deleting from
  it works. Writing to it panics.
  Module `Litecache` (`litecache.dfy`) models the client as a class with a
  `map<string, string>` field. A `hasTable` flag is false while that map is
  still nil. The methods state the new state exactly. Functions `Lookup` and
  `DeleteKeys` describe `Get` and `Del` on values, and lemmas about those
  functions give the read-after-write, frame and idempotence properties.
- **Bearer-token extraction** in the HTTP middleware `bearerToken`. Suppose
  the `Authorization` header is longer than 7 bytes and its first 6 bytes
  upper-case to `BEARER`. Then the token is the header from byte 7 on.
  Otherwise the token is empty. Module `Server` (`bearer.dfy`) models the
  header as a byte sequence and the rule as the pure function
  `ExtractBearer`. Lemmas compare it with a plain reference definition:
  the first six bytes spell "bearer", each letter in either case.

Upper-casing is modelled on ASCII bytes. Go's `strings.ToUpper` works on
Unicode, but for this comparison the result is the same. A non-ASCII rune
takes at least two bytes. The only ones that upper-case to an ASCII letter
are U+0131 (to `I`) and U+017F (to `S`), and neither letter is in
`BEARER`. Invalid UTF-8 upper-cases to U+FFFD, which is not ASCII either.

## Model

| member | source | states |
|---|---|---|
| `Litecache.FakeRedisClient.constructor` | internal/litecache/fake_redis_client.go:10-13 | the zero-value client has no table (Go's nil map) and holds nothing |
| `Litecache.FakeRedisClient.Set` | internal/litecache/fake_redis_client.go:15-18 | needs a table (writing to a nil map panics); the new map is the old one with `key` bound to `val` and nothing else changed; `ttl` has no effect; the error is nil |
| `Litecache.FakeRedisClient.Get` | internal/litecache/fake_redis_client.go:20-27 | from any state, the nil map included, returns `Lookup` of the current map, that is the stored value for a present key and `""` for an absent one, so the `Lookup` lemmas below apply to `Get`; changes nothing; the error is nil |
| `Litecache.FakeRedisClient.Del` | internal/litecache/fake_redis_client.go:29-34 | the new map is the old one with the listed keys deleted in order: a key is present afterwards exactly when it was present and is not listed, and kept keys keep their values; the loop invariant says this for the first `i` keys; the error is nil |
| `Litecache.FakeRedisClient.FlushAll` | internal/litecache/fake_redis_client.go:36-39 | callable from any state; whatever the state before, afterwards a table exists and is empty, so a second call leaves the same state; the error is nil |
| `Litecache.DeleteKeysRemovesListed` | internal/litecache/fake_redis_client.go:30-32 | the contract of `DeleteKeys`, the key-by-key model of the `Del` loop: deleting the keys one per loop step equals removing the set of listed keys at once |
| `Litecache.LookupAfterDelete` | internal/litecache/fake_redis_client.go:29-34 | after `Del`, every listed key reads as `""` and every unlisted key reads as before |
| `Litecache.DeleteKeysIdempotent` | internal/litecache/fake_redis_client.go:30-32 | deleting the same keys twice leaves the same table as deleting them once |
| `Litecache.DeleteKeysIgnoresOrderAndDuplicates` | internal/litecache/fake_redis_client.go:30-32 | two key lists naming the same keys, in any order and with any repetitions, delete the same entries |
| `Litecache.LookupAfterSet` | internal/litecache/fake_redis_client.go:15-23 | after `Set(k, v)`, `Get(k)` gives `v`, and every other key reads as before |
| `Litecache.SetLastWriterWins` | internal/litecache/fake_redis_client.go:16 | two `Set`s of one key leave the table the second alone would leave |
| `Litecache.AbsentReadsAsStoredEmpty` | internal/litecache/fake_redis_client.go:21-26 | an absent key and a key storing `""` both read as `""` |
| `Litecache.LookupAfterFlush` | internal/litecache/fake_redis_client.go:37 | in the flushed (empty) table every key reads as `""` |
| `Server.UpperByteMatchesEitherCase` | internal/server.go:146 | for `UpperByte`, the per-byte upper-casing inside `strings.ToUpper`: an upper-case ASCII letter is the upper case of exactly that letter and its lower-case partner, and of no other byte |
| `Server.ToUpper` | internal/server.go:146 | the upper-cased string has the same length as the input, and each byte is the upper case of the input byte at that position |
| `Server.PrefixMatchIsCaseInsensitive` | internal/server.go:146 | the upper-case comparison of the first 6 bytes with `BEARER` holds exactly when those bytes spell "bearer" with each letter in either case |
| `Server.ExtractBearerSpec` | internal/server.go:146-147 | the contract of `ExtractBearer`, the model of the token rule: a token is extracted exactly when the header is longer than 7 bytes and starts with "bearer" in any case; such a token is non-empty, has length `len(header) - 7` and follows the first 7 bytes of the header, so it is a suffix of the header |
| `Server.ShortHeaderYieldsNoToken` | internal/server.go:142-146 | a header of at most 7 bytes, including the empty string a missing header reads as, yields the empty token |
| `Server.WrongSchemeYieldsNoToken` | internal/server.go:146 | if the first 6 bytes are not "bearer" in some case, the token is empty whatever the rest of the header holds |
| `Server.SeparatorIsUnchecked` | internal/server.go:146-147 | replacing byte 6 of the header never changes the token |
| `Server.SeparatorExample` | internal/server.go:146-147 | `Bearer abc` and `BearerXabc` both yield `abc` |

## Left out

- The `ctx` parameters of the client's methods: the methods never use them.
- The byte representation of the client's keys and values: Go strings are byte strings and may hold invalid UTF-8, while the model uses Dafny strings. The client only stores them and compares keys for equality, so the model treats them as abstract values.
- TTL expiry: the fake client never expires an entry, and `Set` ignores its `ttl` argument.
- The embedded `cache.RedisClient` interface: its other methods are nil in the fake, would panic if called, and are not part of this model.
- internal/fake_redis_client.go, the client built on an LRU cache: its capacity-1024 eviction and recency order come from the `hashicorp/golang-lru` library, which is not part of this model.
- The rest of internal/server.go: `StartServer`, with its goroutine, OS-signal channel and shutdown timeouts; `setupLogger`; `setupRouter`; and, in `bearerToken`, reading the header from the request and storing the token in the request context before calling the next handler. These are I/O and HTTP plumbing. The model takes the header value as its input.
- Server.ToUpper: models Go's full Unicode `strings.ToUpper` on ASCII bytes only; the model upper-cases ASCII bytes only, which gives the same answer for the 6-byte comparison with `BEARER` (see above).
- internal/sqlite_datastore.go: every method of the datastore is a stub that returns fixed zero values, and its constructor holds no state. There is no insert, tag, conflict or version logic in it to model.
- internal/sqlite_datastore_test.go: it calls functions the datastore does not have (a one-argument `NewSqliteDatastore` and `CreateTable`). Its expectations also contradict the stubs, so none of them is a property of the code shown.
- internal/datastoretest/dynamo.go: its table helpers and `ScanClientItemCounts` are stubs returning nil, it calls `ExecInTransaction` and `Db`, which the datastore does not have, and `ScanSyncEntities` and `ScanTagItems` are SQL queries and row reading, which are database I/O.
- cmd/litesync/litesync.go: flag parsing, usage output and process exit.
