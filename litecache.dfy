/** A model of the map-backed fake Redis client of package litecache.

    The client keeps a string-to-string table. `Set` overwrites one entry,
    `Get` reads one (an absent key reads as the empty string), `Del` removes
    a list of keys one after another and `FlushAll` replaces the table by an
    empty one. No operation ever returns a non-nil error, and the
    time-to-live given to `Set` is ignored.

    The Go struct has no constructor: its zero value holds a nil map, which
    reads as empty and on which deleting is a no-op, but on which writing
    panics. `hasTable` records whether a real table has been made yet.
 */
module Litecache {

  /** Go's `error` result: nil, or a failure carrying a message. */
  datatype Error = Nil | Failed(message: string)

  /** A Go `time.Duration`: a signed count of nanoseconds. */
  type Duration = int

  // ---------------------------------------------------------------------
  // The table as a value
  // ---------------------------------------------------------------------

  /** What `Get` reports for `key`: the stored value, or "" when absent. */
  function Lookup(table: map<string, string>, key: string): (value: string)
  {
    if key in table then table[key] else ""
  }

  /** The table after deleting `keys` in order, one `delete` per key. */
  function DeleteKeys(table: map<string, string>, keys: seq<string>): (rest: map<string, string>)
    decreases |keys|
  {
    if keys == [] then table
    else DeleteKeys(table, keys[..|keys| - 1]) - {keys[|keys| - 1]}
  }

  /** The keys listed in `keys`, as a set. */
  function Listed(keys: seq<string>): set<string>
  {
    set k | k in keys
  }

  // ---------------------------------------------------------------------
  // Properties of the table operations
  // ---------------------------------------------------------------------

  /** Deleting a list of keys one by one is removing exactly the listed
      keys at once: every listed key is gone and every other entry is kept
      with its value. */
  lemma {:induction false} DeleteKeysRemovesListed(table: map<string, string>, keys: seq<string>)
    ensures DeleteKeys(table, keys) == table - Listed(keys)
    decreases |keys|
  {
    if keys != [] {
      var init := keys[..|keys| - 1];
      DeleteKeysRemovesListed(table, init);
      assert keys == init + [keys[|keys| - 1]];
      assert Listed(keys) == Listed(init) + {keys[|keys| - 1]};
    }
  }

  /** After `Del(keys...)` each listed key reads as "" and each other key
      reads as before. */
  lemma LookupAfterDelete(table: map<string, string>, keys: seq<string>, key: string)
    ensures key in keys ==> Lookup(DeleteKeys(table, keys), key) == ""
    ensures key !in keys ==> Lookup(DeleteKeys(table, keys), key) == Lookup(table, key)
  {
    DeleteKeysRemovesListed(table, keys);
  }

  /** Deleting the same keys a second time changes nothing. */
  lemma DeleteKeysIdempotent(table: map<string, string>, keys: seq<string>)
    ensures DeleteKeys(DeleteKeys(table, keys), keys) == DeleteKeys(table, keys)
  {
    DeleteKeysRemovesListed(table, keys);
    DeleteKeysRemovesListed(DeleteKeys(table, keys), keys);
  }

  /** Only the set of listed keys matters, not their order nor repetitions:
      absent and duplicate keys are harmless. */
  lemma DeleteKeysIgnoresOrderAndDuplicates(table: map<string, string>, keys: seq<string>, others: seq<string>)
    requires forall k :: k in keys <==> k in others
    ensures DeleteKeys(table, keys) == DeleteKeys(table, others)
  {
    DeleteKeysRemovesListed(table, keys);
    DeleteKeysRemovesListed(table, others);
    assert Listed(keys) == Listed(others);
  }

  /** After `Set(key, value)`, `Get(key)` gives `value`, and every other
      key reads as it did before. */
  lemma LookupAfterSet(table: map<string, string>, key: string, value: string, other: string)
    ensures Lookup(table[key := value], key) == value
    ensures other != key ==> Lookup(table[key := value], other) == Lookup(table, other)
  {
  }

  /** Two `Set`s of the same key: the last writer wins. */
  lemma SetLastWriterWins(table: map<string, string>, key: string, first: string, second: string)
    ensures table[key := first][key := second] == table[key := second]
  {
  }

  /** An absent key and a key holding "" cannot be told apart by `Get`. */
  lemma AbsentReadsAsStoredEmpty(table: map<string, string>, key: string)
    ensures Lookup(table - {key}, key) == Lookup(table[key := ""], key) == ""
  {
  }

  /** After `FlushAll` every key reads as "". */
  lemma LookupAfterFlush(key: string)
    ensures Lookup(map[], key) == ""
  {
  }

  // ---------------------------------------------------------------------
  // The client
  // ---------------------------------------------------------------------

  class FakeRedisClient {
    /** The `items` map; empty while it is still Go's nil map. */
    var items: map<string, string>
    /** False while `items` is the nil map of the zero-value struct. */
    var hasTable: bool

    /** A nil map holds nothing. */
    ghost predicate Valid()
      reads this
    {
      !hasTable ==> items == map[]
    }

    /** The zero value `FakeRedisClient{}`: a nil table. */
    constructor ()
      ensures Valid()
      ensures !hasTable && items == map[]
    {
      items := map[];
      hasTable := false;
    }

    /** Stores `val` under `key`, ignoring `ttl`. Writing to the nil map of
        a zero-value client panics in Go, so a table must exist. */
    method Set(key: string, val: string, ttl: Duration) returns (err: Error)
      requires hasTable
      modifies this
      ensures Valid() && hasTable
      ensures items == old(items)[key := val]
      ensures err == Nil
    {
      items := items[key := val];
      err := Nil;
    }

    /** Reads `key`: its value when present, "" otherwise. */
    method Get(key: string) returns (value: string, err: Error)
      ensures value == Lookup(items, key)
      ensures err == Nil
    {
      if key in items {
        value := items[key];
      } else {
        value := "";
      }
      err := Nil;
    }

    /** Deletes each of `keys` in turn; keys that are absent, or listed
        more than once, are harmless. */
    method Del(keys: seq<string>) returns (err: Error)
      requires Valid()
      modifies this
      ensures Valid() && hasTable == old(hasTable)
      ensures items == DeleteKeys(old(items), keys)
      ensures forall k :: k in items <==> k in old(items) && k !in keys
      ensures forall k :: k in items ==> items[k] == old(items)[k]
      ensures err == Nil
    {
      for i := 0 to |keys|
        invariant hasTable == old(hasTable)
        invariant items == DeleteKeys(old(items), keys[..i])
        invariant forall k :: k in items <==> k in old(items) && k !in keys[..i]
        invariant forall k :: k in items ==> items[k] == old(items)[k]
      {
        assert keys[..i + 1][..i] == keys[..i];
        items := items - {keys[i]};
      }
      assert keys[..|keys|] == keys;
      err := Nil;
    }

    /** Replaces the table by a fresh empty one. */
    method FlushAll() returns (err: Error)
      modifies this
      ensures Valid() && hasTable
      ensures items == map[]
      ensures err == Nil
    {
      items := map[];
      hasTable := true;
      err := Nil;
    }
  }
}
