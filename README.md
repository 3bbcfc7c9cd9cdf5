# AnyCache in Dafny

A model of AnyCache, a generic key-value cache for Swift values, with its proofs.
Each cache is bound to a value type and a cache name. The file-backed `AnyCache<T>`
keeps one directory per cache name under the platform's caches directory. In that
directory it keeps one file per key, holding the JSON encoding of the value. The
in-memory `AnyCacheMock<T>` keeps a dictionary instead, plus one call counter per
operation for test assertions. Both offer the same six operations: `setEntry`,
`getEntry`, `getAllEntries`, `removeEntry`, `removeAllEntries` and `entryExists`.

Files:

- `wrappers.dfy`: `Option`, Swift's `T?`.
- `codec.dfy`: the codec as a pair of functions, an encoder that may fail and a
  partial decoder. Its round-trip law `RoundTrips()` is a hypothesis of the lemmas
  that need it.
- `bags.dfy`: the values of a map as a multiset (`ValuesOf`). It also enumerates a set
  in an unspecified order, which is how dictionary iteration and directory listings
  behave.
- `file_manager.dfy`: the filesystem as one shared `FileManager` object. It holds
  the caches directory, which may be unresolved, and a map from directory path to
  that directory's files (`file name -> bytes`). All caches share it, so two caches
  with the same name see the same files. Caches with different names are isolated.
- `any_cache.dfy`: the file-backed cache. Specification functions describe what each
  operation does to the namespace's files and what it reads from them. Lemmas prove
  the cache's promises about those functions. The class `AnyCache` is proved against
  the functions.
- `any_cache_mock.dfy`: the test double as a class with a `map` field and six `nat`
  counters.
- `cache_laws.dfy`: short call sequences on either class, and what callers are
  guaranteed to observe. These are the laws a caller can rely on.

Outcomes that come from the environment are parameters:

- whether the platform resolves a caches directory (`FileManager.cachesDirectory`);
- whether creating the namespace directory succeeds (`createSucceeds`);
- whether a write succeeds (`writeSucceeds`);
- whether a removal succeeds (`removeSucceeds`);
- which files refuse deletion during `removeAllEntries` (`undeletable`).

The order in which a directory is listed or a dictionary is iterated is
nondeterministic (`:|`). Every result that depends on that order is specified up to
the order: `getAllEntries` as a multiset.

A failed directory creation is only logged (`Sources/AnyCache/AnyCache.swift:69-71`).
The handle, set at line 59, stays set, and the directory stays missing. In the model, every operation then behaves as it does
without a directory: writes fail, reads yield `None`, the listing fails and
existence is false. A directory created later by someone else would make the cache
work again. The only permanently inert state is an unresolved caches directory
(`Sources/AnyCache/AnyCache.swift:54-57`).

## Model

| member | source | states |
|---|---|---|
| `FileCache.AnyCache.constructor` | Sources/AnyCache/AnyCache.swift:50-74 | the handle is `<caches directory>/<cacheName>`, or `None` when the caches directory is unresolved; a missing namespace directory is created only when creation succeeds; a failure leaves the handle set and the filesystem untouched |
| `FileCache.AnyCache.SetEntry` | Sources/AnyCache/AnyCache.swift:76-86 | the namespace's files become `Written(old files, key, encode(value), writeSucceeds)`: the key's file is replaced by the encoding only when there is a directory, encoding succeeds and the write succeeds; otherwise nothing changes; other directories are never touched |
| `FileCache.AnyCache.GetEntry` | Sources/AnyCache/AnyCache.swift:88-99 | the result is the decoded contents of the key's file; it is `None` with no handle, no directory, no file or undecodable bytes; no error reaches the caller and nothing is modified |
| `FileCache.AnyCache.GetAllEntries` | Sources/AnyCache/AnyCache.swift:101-117 | the result is `None` exactly when there is no directory or some file fails to decode; otherwise it holds one decoded value per file, as a multiset; nothing is modified |
| `FileCache.AnyCache.RemoveEntry` | Sources/AnyCache/AnyCache.swift:119-128 | only the key's file is removed, and only when it exists and the removal succeeds; a missing key or a refused removal leaves everything as it was |
| `FileCache.AnyCache.RemoveAllEntries` | Sources/AnyCache/AnyCache.swift:130-141 | the listed files are deleted until the first refused deletion: what remains is an unchanged part of what was there, it holds every undeletable file, and it is empty when none is undeletable; with no directory nothing changes |
| `FileCache.AnyCache.EntryExists` | Sources/AnyCache/AnyCache.swift:143-148 | the result is true exactly when the handle is set, the directory exists and holds a file named `key`; the file is not read or decoded |
| `FileCache.Inert` | Sources/AnyCache/AnyCache.swift:76-148 | the guards at lines 77, 89, 102, 120, 131 and 144: with no usable directory, reads yield `None`/false and writes and removals change nothing |
| `FileCache.ReadAfterWrite` | Sources/AnyCache/AnyCache.swift:76-99 | under the codec's round-trip law, a successful write is read back as the value written and the entry exists; every other key reads as before |
| `FileCache.WriteOverwrites` | Sources/AnyCache/AnyCache.swift:79-82 | writing a key twice leaves only the second encoding |
| `FileCache.ReadFailsQuietly` | Sources/AnyCache/AnyCache.swift:92-98 | a missing file and undecodable bytes both read as `None` |
| `FileCache.ExistsWithoutDecoding` | Sources/AnyCache/AnyCache.swift:143-148 | an entry whose bytes do not decode still exists, though it reads as `None` |
| `FileCache.ReadAfterRemove` | Sources/AnyCache/AnyCache.swift:119-128 | after a removal the key reads as `None` and does not exist; other keys read as before; removing again or removing a missing key changes nothing |
| `FileCache.AllOrNothing` | Sources/AnyCache/AnyCache.swift:104-116 | listing fails if and only if there is no directory or some single file fails to decode |
| `FileCache.AllEntriesCount` | Sources/AnyCache/AnyCache.swift:106-112 | a successful listing has as many values as there are files |
| `FileCache.AllEntriesOfEmpty` | Sources/AnyCache/AnyCache.swift:105-112 | an empty usable directory lists as the empty list, not `None` |
| `FileCache.AllEntriesOfWritten` | Sources/AnyCache/AnyCache.swift:76-117 | under the round-trip law, a directory filled by successful writes lists exactly the values written, one per key |
| `FileCache.CorruptFileSpoilsOnlyTheListing` | Sources/AnyCache/AnyCache.swift:88-117 | one corrupt file makes listing fail, while every other key still reads as before |
| `FileCache.ClearedIsEmpty` | Sources/AnyCache/AnyCache.swift:130-141 | a clear with no refused deletion leaves no entry, and listing then yields the empty list |
| `FileCache.DecodedAfterWrite` | Sources/AnyCache/AnyCache.swift:76-86 | under the round-trip law, a write changes the decoded view of the directory exactly as `cache[key] = value` changes the mock's dictionary |
| `FileCache.DecodedAfterRemove` | Sources/AnyCache/AnyCache.swift:119-128 | a removal changes the decoded view exactly as `cache[key] = nil` changes the dictionary |
| `FileCache.ListingDecodes` | Sources/AnyCache/AnyCache.swift:105-112 | decoding the files of a listing in listing order yields every file's value once |
| `FileSystem.FileManager.ContentsOfDirectory` | Sources/AnyCache/AnyCache.swift:105 | the listing (also used at line 134) names every file of the directory exactly once; it fails exactly when the directory does not exist |
| `FileSystem.Join` | Sources/AnyCache/AnyCache.swift:59 | the joined path is the directory, a separator, then the name |
| `FileSystem.JoinSeparates` | Sources/AnyCache/AnyCache.swift:59 | two different cache names under one caches directory give different directories |
| `Bags.Enumerate` | Sources/AnyCache/AnyCache.swift:107 | lists every element of a set exactly once, in an unspecified order |
| `Bags.ValuesOfSize` | Tests/AnyCacheTests/AnyCacheMock.swift:31 | a map's bag of values has one element per key |
| `Bags.ValuesOfRemove` | Tests/AnyCacheTests/AnyCacheMock.swift:31 | removing a key removes exactly its value from the bag, whichever key is taken out |
| `Bags.ValuesOfEnumeration` | Tests/AnyCacheTests/AnyCacheMock.swift:31 | reading a map's values along any enumeration of its keys yields exactly its bag of values |
| `Bags.ValuesOfMembers` | Tests/AnyCacheTests/AnyCacheMock.swift:31 | a value is in the bag if and only if some key maps to it |
| `MockCache.Tick` | Tests/AnyCacheTests/AnyCacheMock.swift:19-47 | the `+= 1` at lines 20, 25, 30, 35, 40 and 45: one call raises its own counter by one and leaves the other counters unchanged |
| `MockCache.AnyCacheMock.constructor` | Tests/AnyCacheTests/AnyCacheMock.swift:11-17 | the dictionary is empty and all six counters are 0 |
| `MockCache.AnyCacheMock.SetEntry` | Tests/AnyCacheTests/AnyCacheMock.swift:19-22 | the dictionary becomes `old[key := value]`, which overwrites that key and leaves other keys alone; only `setEntryCallCount` goes up |
| `MockCache.AnyCacheMock.GetEntry` | Tests/AnyCacheTests/AnyCacheMock.swift:24-27 | the result is the key's value, or `None` when the key is absent; the dictionary is unchanged; only `getEntryCallCount` goes up |
| `MockCache.AnyCacheMock.GetAllEntries` | Tests/AnyCacheTests/AnyCacheMock.swift:29-32 | the result is never `None`; it holds exactly the dictionary's values as a multiset, one per key; only `getAllEntriesCallCount` goes up |
| `MockCache.AnyCacheMock.RemoveEntry` | Tests/AnyCacheTests/AnyCacheMock.swift:34-37 | the dictionary loses the key, if it had it, and nothing else; only `removeEntryCallCount` goes up |
| `MockCache.AnyCacheMock.RemoveAllEntries` | Tests/AnyCacheTests/AnyCacheMock.swift:39-42 | the dictionary becomes empty; only `removeAllEntriesCallCount` goes up |
| `MockCache.AnyCacheMock.EntryExists` | Tests/AnyCacheTests/AnyCacheMock.swift:44-47 | the result is key membership; the dictionary is unchanged; only `entryExistsCallCount` goes up |
| `CacheLaws.FileSetThenGet` | Sources/AnyCache/AnyCache.swift:76-99 | on a usable cache with a lawful codec, a successful set followed by a get returns the value, and the entry exists |
| `CacheLaws.FileOverwrite` | Sources/AnyCache/AnyCache.swift:76-99 | two sets on one key, then a get, returns the second value |
| `CacheLaws.FileRemoveThenGet` | Sources/AnyCache/AnyCache.swift:119-128 | after a remove, a get returns `None` and the entry does not exist, whether or not it was there |
| `CacheLaws.FileClearThenList` | Sources/AnyCache/AnyCache.swift:101-141 | after a clear with no refused deletion, listing returns `[]` and no entry exists |
| `CacheLaws.FileInert` | Sources/AnyCache/AnyCache.swift:54-57 | without a caches directory every operation returns `None`/false and the filesystem is unchanged |
| `CacheLaws.NamespaceIsolation` | Sources/AnyCache/AnyCache.swift:59 | a set on one cache leaves the files of a differently named cache unchanged |
| `CacheLaws.MockSetThenGet` | Tests/AnyCacheTests/AnyCacheMock.swift:19-27 | a set, then a get and an existence check on the mock, returns the value and true |
| `CacheLaws.MockRemoveTwice` | Tests/AnyCacheTests/AnyCacheMock.swift:34-37 | removing a key twice leaves the same dictionary as removing it once; a get then returns `None` and the entry does not exist |
| `CacheLaws.MockClearThenList` | Tests/AnyCacheTests/AnyCacheMock.swift:29-42 | after a clear, the mock lists `[]` |
| `CacheLaws.MockExistsMatchesGet` | Tests/AnyCacheTests/AnyCacheMock.swift:24-47 | an entry exists exactly when a get returns a value |

## Left out

- The JSON format: `JSONEncoder` and `JSONDecoder` are the two functions of a `Codec`. The round-trip law is assumed where a lemma needs it, as a requires on `RoundTrips()`.
- Logging: every `print` in a catch block is left out. It has no effect on results.
- Read and listing errors on an existing file or directory are not modelled: reading a present file and listing an existing directory always succeed in the model. In the source, a throwing `Data(contentsOf:)` (`Sources/AnyCache/AnyCache.swift:93` and `:108`) makes the result `nil` for a file whose bytes would decode, and a throwing `contentsOfDirectory` on an unreadable directory (lines 105 and 134) makes `getAllEntries` return `nil` and `removeAllEntries` delete nothing.
- Partial writes: a write either replaces the file completely or changes nothing.
- Path handling: `appendingPathComponent` is plain concatenation with `/`. Keys and cache names are used verbatim. Keys or names that contain separators, and namespaces nested inside other namespaces, are not modelled.
- Reserved keys and cache names: the model treats `""`, `.` and `..` as ordinary file and directory names. On a real filesystem the keys `""` and `.` name the namespace directory itself and `..` its parent, so `fileExists` (line 147) is true for them on a usable cache and a write to them (line 82) always fails. `Exists`, `Written`, `ReadAfterWrite` and `CacheLaws.FileSetThenGet` hold for these keys only in the modelled filesystem. The removal path is affected most: `removeEntry` (lines 122-124) with the key `""` or `.` removes the namespace directory with every entry in it, after which every write fails until a cache with that name is built again, and with `..` it removes the caches directory with every namespace in it. So `Removed`, `RemoveEntry` (its `Elsewhere` frame included), `ReadAfterRemove` (a missing key changes nothing), `DecodedAfterRemove` and `CacheLaws.FileRemoveThenGet` hold for these keys only in the modelled filesystem. In the same way, the cache names `""` and `.` resolve to the caches directory itself and `..` to its parent, which the model treats as separate namespace directories: `removeAllEntries` (lines 134-137) on such a cache deletes every other namespace's directory, which the `Elsewhere` frame of `RemoveAllEntries` rules out in the model.
- Key equality: keys match only when their code points are identical (`map<string, _>`). Swift compares `String` keys, including `Dictionary<String, T>` lookups in the mock (`Tests/AnyCacheTests/AnyCacheMock.swift:11-47`), by Unicode canonical equivalence, so `"caf\u{E9}"` and `"cafe\u{301}"` are one key there and two in the model. The file names on a case- or normalization-insensitive volume (the default on macOS) are not modelled either: there, `"Key"` and `"key"` name one file.
- Counter width: the mock's six call counters are unbounded `nat`. In Swift they are `Int`, and `+= 1` (`Tests/AnyCacheTests/AnyCacheMock.swift:20-45`) traps at `Int.max`. The model does not capture that trap.
- The check at `Sources/AnyCache/AnyCache.swift:66` also succeeds when a regular file occupies the namespace path. The model has only directories at that level.
- Concurrency and cross-process access are left out. The code has no locking, and operations are modelled as atomic steps on one shared `FileManager`.
- The `AnyCacheInterface` protocol (`Sources/AnyCache/AnyCache.swift:10-39`) has no counterpart, because it only declares signatures. The two classes expose the same six methods.
- `MockCache.AnyCacheMock.GetAllEntries`: Swift's `Array(cache.values)` needs no loop. Dafny needs one to turn a map into a sequence, so the model enumerates the keys.
