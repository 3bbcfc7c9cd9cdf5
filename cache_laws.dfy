/**
 * The cache contract as callers see it: short call sequences on either
 * implementation and what they are guaranteed to observe.
 */
module CacheLaws {
  import opened Wrappers
  import opened Codec
  import opened Bags
  import opened FileSystem
  import opened FileCache
  import opened MockCache

  /** Set, then get: the value comes back and the entry exists. */
  method FileSetThenGet<T(!new)>(c: AnyCache<T>, v: T, key: string) returns (r: Option<T>, present: bool)
    requires c.codec.RoundTrips() && c.Files().Some? && c.codec.encode(v).Some?
    modifies c.fileManager
    ensures r == Some(v) && present
  {
    c.SetEntry(v, key, true);
    ReadAfterWrite(old(c.Files()), key, v, c.codec);
    r := c.GetEntry(key);
    present := c.EntryExists(key);
  }

  /** A second set on the same key overwrites the first. */
  method FileOverwrite<T(!new)>(c: AnyCache<T>, v1: T, v2: T, key: string) returns (r: Option<T>)
    requires c.codec.RoundTrips() && c.Files().Some?
    requires c.codec.encode(v1).Some? && c.codec.encode(v2).Some?
    modifies c.fileManager
    ensures r == Some(v2)
  {
    c.SetEntry(v1, key, true);
    c.SetEntry(v2, key, true);
    r := c.GetEntry(key);
  }

  /** Remove, then get: nothing comes back, whether or not the key was set. */
  method FileRemoveThenGet<T(!new)>(c: AnyCache<T>, key: string) returns (r: Option<T>, present: bool)
    requires c.Files().Some?
    modifies c.fileManager
    ensures r == None && !present
  {
    c.RemoveEntry(key, true);
    r := c.GetEntry(key);
    present := c.EntryExists(key);
  }

  /** Clearing a directory whose files can all be deleted leaves an empty,
      still usable cache. */
  method FileClearThenList<T(!new)>(c: AnyCache<T>, key: string) returns (all: Option<seq<T>>, present: bool)
    requires c.Files().Some?
    modifies c.fileManager
    ensures all == Some([]) && !present
  {
    c.RemoveAllEntries({});
    ClearedIsEmpty(old(c.Files()).value, c.Files().value, {}, c.codec);
    all := c.GetAllEntries();
    present := c.EntryExists(key);
  }

  /** Without a caches directory every operation is inert. */
  method FileInert<T(!new)>(c: AnyCache<T>, v: T, key: string, ok: bool, undeletable: set<string>)
      returns (r: Option<T>, all: Option<seq<T>>, present: bool)
    requires c.cacheDirectory.None?
    modifies c.fileManager
    ensures r == None && all == None && !present
    ensures c.fileManager.directories == old(c.fileManager.directories)
  {
    c.SetEntry(v, key, ok);
    c.RemoveEntry(key, ok);
    c.RemoveAllEntries(undeletable);
    r := c.GetEntry(key);
    all := c.GetAllEntries();
    present := c.EntryExists(key);
  }

  /** Caches with different names on one filesystem do not see each other's writes. */
  method NamespaceIsolation<T(!new)>(a: AnyCache<T>, b: AnyCache<T>, v: T, key: string, ok: bool)
    requires a.fileManager == b.fileManager && a.Resolved() && b.Resolved()
    requires a.cacheName != b.cacheName
    modifies a.fileManager
    ensures b.Files() == old(b.Files())
  {
    if a.fileManager.cachesDirectory.Some? {
      JoinSeparates(a.fileManager.cachesDirectory.value, a.cacheName, b.cacheName);
    }
    a.SetEntry(v, key, ok);
    if b.cacheDirectory.Some? {
      var p := b.cacheDirectory.value;
      assert p in a.Elsewhere(a.fileManager.directories) <==> p in a.fileManager.directories;
      assert p in a.Elsewhere(old(a.fileManager.directories)) <==> p in old(a.fileManager.directories);
    }
  }

  /** The mock: set, then get and exists. */
  method MockSetThenGet<T>(m: AnyCacheMock<T>, v: T, key: string) returns (r: Option<T>, present: bool)
    modifies m
    ensures r == Some(v) && present
    ensures m.cache == old(m.cache)[key := v]
  {
    m.SetEntry(v, key);
    r := m.GetEntry(key);
    present := m.EntryExists(key);
  }

  /** The mock: remove is idempotent and hides the key. */
  method MockRemoveTwice<T>(m: AnyCacheMock<T>, key: string) returns (r: Option<T>, present: bool)
    modifies m
    ensures r == None && !present
    ensures m.cache == old(m.cache) - {key}
  {
    m.RemoveEntry(key);
    m.RemoveEntry(key);
    r := m.GetEntry(key);
    present := m.EntryExists(key);
  }

  /** The mock: after clearing, the listing is empty, not `None`. */
  method MockClearThenList<T>(m: AnyCacheMock<T>) returns (all: Option<seq<T>>)
    modifies m
    ensures all == Some([])
  {
    m.RemoveAllEntries();
    all := m.GetAllEntries();
  }

  /** The mock: an entry exists exactly when getting it yields a value. */
  method MockExistsMatchesGet<T>(m: AnyCacheMock<T>, key: string) returns (r: Option<T>, present: bool)
    modifies m
    ensures present <==> r.Some?
  {
    r := m.GetEntry(key);
    present := m.EntryExists(key);
  }
}
