/**
 * `AnyCacheMock<T>`, the in-memory test double of the cache contract: a
 * dictionary plus one call counter per operation, for test assertions.
 */
module MockCache {
  import opened Wrappers
  import opened Bags

  /** Positions of the six counters in `CallCounts()`. */
  const SET_ENTRY := 0
  const GET_ENTRY := 1
  const GET_ALL_ENTRIES := 2
  const REMOVE_ENTRY := 3
  const REMOVE_ALL_ENTRIES := 4
  const ENTRY_EXISTS := 5

  /** The counters after one more call of operation `op`: that counter goes up by one, no other moves. */
  function Tick(counts: seq<nat>, op: nat): (r: seq<nat>)
    requires op < |counts|
    ensures |r| == |counts| && r[op] == counts[op] + 1
    ensures forall i :: 0 <= i < |counts| && i != op ==> r[i] == counts[i]
  {
    counts[op := counts[op] + 1]
  }

  class AnyCacheMock<T> {
    var cache: map<string, T>
    var setEntryCallCount: nat
    var getEntryCallCount: nat
    var getAllEntriesCallCount: nat
    var removeEntryCallCount: nat
    var removeAllEntriesCallCount: nat
    var entryExistsCallCount: nat

    /** The six counters, in the order of the operation constants above. */
    ghost function CallCounts(): (counts: seq<nat>)
      reads this
      ensures |counts| == 6
    {
      [setEntryCallCount, getEntryCallCount, getAllEntriesCallCount,
       removeEntryCallCount, removeAllEntriesCallCount, entryExistsCallCount]
    }

    /** An empty dictionary; every counter starts at zero. */
    constructor ()
      ensures cache == map[]
      ensures CallCounts() == [0, 0, 0, 0, 0, 0]
    {
      cache := map[];
      setEntryCallCount, getEntryCallCount, getAllEntriesCallCount := 0, 0, 0;
      removeEntryCallCount, removeAllEntriesCallCount, entryExistsCallCount := 0, 0, 0;
    }

    /** `setEntry(_:for:)`: stores or overwrites the key's value. */
    method SetEntry(value: T, key: string)
      modifies this
      ensures cache == old(cache)[key := value]
      ensures CallCounts() == Tick(old(CallCounts()), SET_ENTRY)
    {
      setEntryCallCount := setEntryCallCount + 1;
      cache := cache[key := value];
    }

    /** `getEntry(for:)`: the key's value, `None` when it has none. */
    method GetEntry(key: string) returns (r: Option<T>)
      modifies this
      ensures cache == old(cache)
      ensures r.Some? <==> key in cache
      ensures r.Some? ==> r.value == cache[key]
      ensures CallCounts() == Tick(old(CallCounts()), GET_ENTRY)
    {
      getEntryCallCount := getEntryCallCount + 1;
      r := if key in cache then Some(cache[key]) else None;
    }

    /** `getAllEntries()`: `Array(cache.values)`, every stored value once per
        key, in the dictionary's own order; never `None`. */
    method GetAllEntries() returns (r: Option<seq<T>>)
      modifies this
      ensures cache == old(cache)
      ensures r.Some? && multiset(r.value) == ValuesOf(cache) && |r.value| == |cache|
      ensures CallCounts() == Tick(old(CallCounts()), GET_ALL_ENTRIES)
    {
      getAllEntriesCallCount := getAllEntriesCallCount + 1;
      var keys := Enumerate(cache.Keys);
      var values: seq<T> := [];
      for i := 0 to |keys|
        invariant |values| == i
        invariant forall j :: 0 <= j < i ==> values[j] == cache[keys[j]]
      {
        values := values + [cache[keys[i]]];
      }
      ValuesOfEnumeration(cache, keys, values);
      ValuesOfSize(cache);
      r := Some(values);
    }

    /** `removeEntry(for:)`: `cache[key] = nil`, a no-op for a missing key. */
    method RemoveEntry(key: string)
      modifies this
      ensures cache == old(cache) - {key}
      ensures CallCounts() == Tick(old(CallCounts()), REMOVE_ENTRY)
    {
      removeEntryCallCount := removeEntryCallCount + 1;
      cache := cache - {key};
    }

    /** `removeAllEntries()`: empties the dictionary. */
    method RemoveAllEntries()
      modifies this
      ensures cache == map[]
      ensures CallCounts() == Tick(old(CallCounts()), REMOVE_ALL_ENTRIES)
    {
      removeAllEntriesCallCount := removeAllEntriesCallCount + 1;
      cache := map[];
    }

    /** `entryExists(for:)`: `cache[key] != nil`. */
    method EntryExists(key: string) returns (b: bool)
      modifies this
      ensures cache == old(cache)
      ensures b <==> key in cache
      ensures CallCounts() == Tick(old(CallCounts()), ENTRY_EXISTS)
    {
      entryExistsCallCount := entryExistsCallCount + 1;
      b := key in cache;
    }
  }
}
