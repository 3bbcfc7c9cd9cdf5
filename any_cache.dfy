/**
 * The file-backed cache `AnyCache<T>`: one directory per cache name under
 * the platform's caches directory, one file per key holding the encoded
 * value. Every failure is swallowed: writes and removals that fail leave
 * the files as they were, reads that fail yield `None`.
 *
 * The first half states what the operations do to, and read from, the
 * namespace's files (`None` when the cache has no usable directory); the
 * class at the end implements the operations on a shared `FileManager`
 * and is proved against those functions.
 */
module FileCache {
  import opened Wrappers
  import opened Codec
  import opened Bags
  import opened FileSystem

  /** `getEntry`: the decoded contents of the key's file; `None` when there
      is no directory, no such file, or the bytes do not decode. */
  function Read<T(!new)>(files: Option<Directory>, key: string, codec: Codec<T>): Option<T>
  {
    if files.Some? && key in files.value then codec.decode(files.value[key]) else None
  }

  /** `setEntry`: the files after writing `encoded` under `key`; a failed
      encoding, a missing directory or a failed write leaves them as they were. */
  function Written(files: Option<Directory>, key: string, encoded: Option<Bytes>, writeSucceeds: bool): Option<Directory>
  {
    if files.Some? && encoded.Some? && writeSucceeds then Some(files.value[key := encoded.value]) else files
  }

  /** `removeEntry`: the files after deleting `key`'s file; deleting a file
      that is not there, or a deletion the filesystem refuses, changes nothing. */
  function Removed(files: Option<Directory>, key: string, removeSucceeds: bool): Option<Directory>
  {
    if files.Some? && key in files.value && removeSucceeds then Some(files.value - {key}) else files
  }

  /** `entryExists`: whether a file named `key` is present, whatever it holds. */
  function Exists(files: Option<Directory>, key: string): bool
  {
    files.Some? && key in files.value
  }

  /** Every file of the directory decodes. */
  ghost predicate AllDecode<T(!new)>(files: Directory, codec: Codec<T>)
  {
    forall k :: k in files ==> codec.decode(files[k]).Some?
  }

  /** The value every file decodes to, by file name. */
  ghost function Decoded<T(!new)>(files: Directory, codec: Codec<T>): (m: map<string, T>)
    requires AllDecode(files, codec)
    ensures m.Keys == files.Keys
    ensures forall k :: k in m ==> codec.decode(files[k]) == Some(m[k])
  {
    map k | k in files :: codec.decode(files[k]).value
  }

  /** `getAllEntries`: one decoded value per file, as a bag since the listing
      has no order; `None` without a directory or when any one file fails to decode. */
  ghost function AllEntries<T(!new)>(files: Option<Directory>, codec: Codec<T>): Option<multiset<T>>
  {
    if files.Some? && AllDecode(files.value, codec) then Some(ValuesOf(Decoded(files.value, codec))) else None
  }

  /** `removeAllEntries`: the files are deleted one at a time in listing order
      and the first refused deletion ends the call. Whatever the order, what is
      left is part of what was there, unchanged, and includes every file the
      filesystem refuses to delete; when it refuses none, nothing is left. */
  ghost predicate Cleared(before: Directory, after: Directory, undeletable: set<string>)
  {
    && after.Keys <= before.Keys
    && (forall k :: k in after ==> after[k] == before[k])
    && before.Keys * undeletable <= after.Keys
    && (before.Keys * undeletable == {} ==> after == map[])
  }

  // ---------------------------------------------------------------------
  // Properties of the operations

  /** With no usable directory every operation is inert. */
  lemma Inert<T(!new)>(codec: Codec<T>, key: string, encoded: Option<Bytes>, ok: bool)
    ensures Read(None, key, codec) == None && !Exists(None, key) && AllEntries(None, codec) == None
    ensures Written(None, key, encoded, ok) == None && Removed(None, key, ok) == None
  {
  }

  /** A successful write is read back as the value written (under the codec's
      round-trip law) and leaves every other key as it was. */
  lemma ReadAfterWrite<T(!new)>(files: Option<Directory>, key: string, v: T, codec: Codec<T>)
    requires codec.RoundTrips()
    requires files.Some? && codec.encode(v).Some?
    ensures Read(Written(files, key, codec.encode(v), true), key, codec) == Some(v)
    ensures Exists(Written(files, key, codec.encode(v), true), key)
    ensures forall j :: j != key ==> Read(Written(files, key, codec.encode(v), true), j, codec) == Read(files, j, codec)
  {
  }

  /** Writing the same key twice keeps only the second value. */
  lemma WriteOverwrites(files: Option<Directory>, key: string, b1: Bytes, b2: Bytes)
    ensures Written(Written(files, key, Some(b1), true), key, Some(b2), true) == Written(files, key, Some(b2), true)
  {
    if files.Some? {
      assert files.value[key := b1][key := b2] == files.value[key := b2];
    }
  }

  /** `getEntry` yields `None` for a missing file and for a file whose bytes do not decode. */
  lemma ReadFailsQuietly<T(!new)>(files: Directory, key: string, codec: Codec<T>)
    requires key !in files || codec.decode(files[key]).None?
    ensures Read(Some(files), key, codec) == None
  {
  }

  /** `entryExists` looks only at presence: an undecodable file still exists. */
  lemma ExistsWithoutDecoding<T(!new)>(files: Directory, key: string, bytes: Bytes, codec: Codec<T>)
    requires codec.decode(bytes).None?
    ensures Exists(Some(files[key := bytes]), key)
    ensures Read(Some(files[key := bytes]), key, codec) == None
  {
  }

  /** After a successful removal the key is gone and every other key is as it
      was; removing again, or removing a missing key, changes nothing. */
  lemma ReadAfterRemove<T(!new)>(files: Option<Directory>, key: string, codec: Codec<T>)
    requires files.Some?
    ensures Read(Removed(files, key, true), key, codec) == None && !Exists(Removed(files, key, true), key)
    ensures forall j :: j != key ==> Read(Removed(files, key, true), j, codec) == Read(files, j, codec)
    ensures Removed(Removed(files, key, true), key, true) == Removed(files, key, true)
    ensures key !in files.value ==> Removed(files, key, true) == files
  {
  }

  /** `getAllEntries` is all-or-nothing: it fails exactly when there is no
      directory or some single file fails to decode. */
  lemma AllOrNothing<T(!new)>(files: Option<Directory>, codec: Codec<T>)
    ensures AllEntries(files, codec).None? <==>
              files.None? || exists k :: k in files.value && codec.decode(files.value[k]).None?
  {
  }

  /** When it succeeds it yields one value per stored file. */
  lemma AllEntriesCount<T(!new)>(files: Directory, codec: Codec<T>)
    requires AllEntries(Some(files), codec).Some?
    ensures |AllEntries(Some(files), codec).value| == |files|
  {
    var m := Decoded(files, codec);
    ValuesOfSize(m);
    assert |m.Keys| == |files.Keys|;
  }

  /** A usable, empty directory yields the empty list, not `None`. */
  lemma AllEntriesOfEmpty<T(!new)>(codec: Codec<T>)
    ensures AllEntries(Some(map[]), codec) == Some(multiset{})
  {
    var m := Decoded(map[], codec);
    ValuesOfSize(m);
  }

  /** A directory filled by successful writes yields exactly the values written. */
  lemma AllEntriesOfWritten<T(!new)>(values: map<string, T>, codec: Codec<T>)
    requires codec.RoundTrips()
    requires forall k :: k in values ==> codec.encode(values[k]).Some?
    ensures var files := map k | k in values :: codec.encode(values[k]).value;
            AllEntries(Some(files), codec) == Some(ValuesOf(values))
  {
    var files := map k | k in values :: codec.encode(values[k]).value;
    assert AllDecode(files, codec);
    assert Decoded(files, codec) == values;
  }

  /** One corrupt file makes `getAllEntries` fail, while `getEntry` on any
      other key reads as before. */
  lemma CorruptFileSpoilsOnlyTheListing<T(!new)>(files: Directory, bad: string, garbage: Bytes, key: string, codec: Codec<T>)
    requires codec.decode(garbage).None? && key != bad
    ensures AllEntries(Some(files[bad := garbage]), codec) == None
    ensures Read(Some(files[bad := garbage]), key, codec) == Read(Some(files), key, codec)
  {
    assert bad in files[bad := garbage];
  }

  /** When no deletion is refused, clearing leaves nothing: no key exists and
      `getAllEntries` yields the empty list. */
  lemma ClearedIsEmpty<T(!new)>(before: Directory, after: Directory, undeletable: set<string>, codec: Codec<T>)
    requires Cleared(before, after, undeletable)
    requires before.Keys * undeletable == {}
    ensures forall k :: !Exists(Some(after), k)
    ensures AllEntries(Some(after), codec) == Some(multiset{})
  {
    AllEntriesOfEmpty(codec);
  }

  /** A successful write updates the decoded view of the directory as
      `cache[key] = value` updates the in-memory dictionary. */
  lemma DecodedAfterWrite<T(!new)>(files: Directory, key: string, v: T, codec: Codec<T>)
    requires codec.RoundTrips() && AllDecode(files, codec) && codec.encode(v).Some?
    ensures var after := Written(Some(files), key, codec.encode(v), true).value;
            AllDecode(after, codec) && Decoded(after, codec) == Decoded(files, codec)[key := v]
  {
    var after := files[key := codec.encode(v).value];
    assert AllDecode(after, codec);
    assert Decoded(after, codec) == Decoded(files, codec)[key := v];
  }

  /** A removal updates the decoded view as `cache[key] = nil` updates the dictionary. */
  lemma DecodedAfterRemove<T(!new)>(files: Directory, key: string, ok: bool, codec: Codec<T>)
    requires AllDecode(files, codec)
    requires ok || key !in files
    ensures var after := Removed(Some(files), key, ok).value;
            AllDecode(after, codec) && Decoded(after, codec) == Decoded(files, codec) - {key}
  {
    var after := Removed(Some(files), key, ok).value;
    assert AllDecode(after, codec);
    assert Decoded(after, codec) == Decoded(files, codec) - {key};
  }

  /** Decoding every file of a listing, in listing order, yields the bag of
      decoded values `getAllEntries` promises. */
  lemma ListingDecodes<T(!new)>(files: Directory, names: seq<string>, values: seq<T>, codec: Codec<T>)
    requires Enumerates(names, files.Keys)
    requires |values| == |names|
    requires forall j :: 0 <= j < |names| ==> codec.decode(files[names[j]]) == Some(values[j])
    ensures AllDecode(files, codec)
    ensures multiset(values) == ValuesOf(Decoded(files, codec))
  {
    assert AllDecode(files, codec) by {
      forall k | k in files ensures codec.decode(files[k]).Some? {
        var j :| 0 <= j < |names| && names[j] == k;
      }
    }
    ValuesOfEnumeration(Decoded(files, codec), names, values);
  }

  // ---------------------------------------------------------------------
  // The cache

  class AnyCache<T(!new)> {
    /** Distinguishes caches of one value type from each other. */
    const cacheName: string
    const codec: Codec<T>
    const fileManager: FileManager
    /** `varyingCacheDirectory`: the namespace directory, resolved once at
        construction; `None` when the platform has no caches directory. */
    const cacheDirectory: Option<Path>

    /** The namespace's files as the operations see them: `None` when there
        is no handle or no directory behind it. */
    function Files(): Option<Directory>
      reads fileManager
    {
      if cacheDirectory.Some? && cacheDirectory.value in fileManager.directories
      then Some(fileManager.directories[cacheDirectory.value])
      else None
    }

    /** The handle is the cache name under the platform's caches directory,
        as construction resolved it; both are constants, so this holds for
        the life of the object. */
    ghost predicate Resolved()
    {
      cacheDirectory == if fileManager.cachesDirectory.Some?
                        then Some(Join(fileManager.cachesDirectory.value, cacheName))
                        else None
    }

    /** Every directory other than this cache's own. */
    function Elsewhere(directories: map<Path, Directory>): map<Path, Directory>
    {
      if cacheDirectory.Some? then directories - {cacheDirectory.value} else directories
    }

    /** `init(cacheName:)`: resolves the namespace directory and creates it if
        it is missing. A failed creation is only logged: the handle stays set
        and the directory stays missing. */
    constructor (cacheName: string, fileManager: FileManager, codec: Codec<T>, createSucceeds: bool)
      modifies fileManager
      ensures this.cacheName == cacheName && this.fileManager == fileManager && this.codec == codec
      ensures Resolved()
      ensures fileManager.directories ==
                if cacheDirectory.Some? && cacheDirectory.value !in old(fileManager.directories) && createSucceeds
                then old(fileManager.directories)[cacheDirectory.value := map[]]
                else old(fileManager.directories)
    {
      this.cacheName := cacheName;
      this.fileManager := fileManager;
      this.codec := codec;
      this.cacheDirectory := if fileManager.cachesDirectory.Some?
                             then Some(Join(fileManager.cachesDirectory.value, cacheName))
                             else None;
      new;
      if cacheDirectory.Some? && cacheDirectory.value !in fileManager.directories && createSucceeds {
        fileManager.directories := fileManager.directories[cacheDirectory.value := map[]];
      }
    }

    /** `setEntry(_:for:)`: encodes `value` and writes it as the key's file.
        `writeSucceeds` is the filesystem's answer to the write. */
    method SetEntry(value: T, key: string, writeSucceeds: bool)
      modifies fileManager
      ensures Files() == Written(old(Files()), key, codec.encode(value), writeSucceeds)
      ensures Elsewhere(fileManager.directories) == Elsewhere(old(fileManager.directories))
    {
      if cacheDirectory.None? { return; }
      var dir := cacheDirectory.value;
      var data := codec.encode(value);
      if data.None? { return; }
      if dir !in fileManager.directories || !writeSucceeds { return; }
      fileManager.directories := fileManager.directories[dir := fileManager.directories[dir][key := data.value]];
    }

    /** `getEntry(for:)`: reads and decodes the key's file; every failure is `None`. */
    method GetEntry(key: string) returns (r: Option<T>)
      ensures r == Read(Files(), key, codec)
    {
      if cacheDirectory.None? { return None; }
      var dir := cacheDirectory.value;
      if dir !in fileManager.directories || key !in fileManager.directories[dir] { return None; }
      r := codec.decode(fileManager.directories[dir][key]);
    }

    /** `getAllEntries()`: lists the directory and decodes file after file,
        giving up on the first failure. The listing order is left open. */
    method GetAllEntries() returns (r: Option<seq<T>>)
      ensures r.Some? <==> AllEntries(Files(), codec).Some?
      ensures r.Some? ==> multiset(r.value) == AllEntries(Files(), codec).value
    {
      if cacheDirectory.None? { return None; }
      var dir := cacheDirectory.value;
      var contents := fileManager.ContentsOfDirectory(dir);
      if contents.None? { return None; }
      var names := contents.value;
      ghost var files := fileManager.directories[dir];
      var arr: seq<T> := [];
      for i := 0 to |names|
        invariant |arr| == i
        invariant forall j :: 0 <= j < i ==> codec.decode(files[names[j]]) == Some(arr[j])
      {
        var entry := codec.decode(fileManager.directories[dir][names[i]]);
        if entry.None? {
          assert !AllDecode(files, codec);
          return None;
        }
        arr := arr + [entry.value];
      }
      ListingDecodes(files, names, arr, codec);
      r := Some(arr);
    }

    /** `removeEntry(for:)`: deletes the key's file; a failed deletion, such
        as of a file that is not there, is swallowed. */
    method RemoveEntry(key: string, removeSucceeds: bool)
      modifies fileManager
      ensures Files() == Removed(old(Files()), key, removeSucceeds)
      ensures Elsewhere(fileManager.directories) == Elsewhere(old(fileManager.directories))
    {
      if cacheDirectory.None? { return; }
      var dir := cacheDirectory.value;
      if dir !in fileManager.directories || key !in fileManager.directories[dir] || !removeSucceeds { return; }
      fileManager.directories := fileManager.directories[dir := fileManager.directories[dir] - {key}];
    }

    /** `removeAllEntries()`: lists the directory and deletes file after file;
        the first deletion the filesystem refuses (a file in `undeletable`)
        ends the loop, leaving the rest in place. */
    method RemoveAllEntries(undeletable: set<string>)
      modifies fileManager
      ensures old(Files()).None? ==> Files() == None
      ensures old(Files()).Some? ==> Files().Some? && Cleared(old(Files()).value, Files().value, undeletable)
      ensures Elsewhere(fileManager.directories) == Elsewhere(old(fileManager.directories))
    {
      if cacheDirectory.None? { return; }
      var dir := cacheDirectory.value;
      var contents := fileManager.ContentsOfDirectory(dir);
      if contents.None? { return; }
      var names := contents.value;
      ghost var before := fileManager.directories[dir];
      for i := 0 to |names|
        invariant dir in fileManager.directories
        invariant forall k :: k in fileManager.directories[dir] <==> k in before && k !in names[..i]
        invariant forall k :: k in fileManager.directories[dir] ==> fileManager.directories[dir][k] == before[k]
        invariant forall j :: 0 <= j < i ==> names[j] !in undeletable
        invariant Elsewhere(fileManager.directories) == Elsewhere(old(fileManager.directories))
      {
        if names[i] in undeletable {
          assert names[i] in before.Keys * undeletable;
          return;
        }
        fileManager.directories := fileManager.directories[dir := fileManager.directories[dir] - {names[i]}];
      }
      assert names[..|names|] == names;
    }

    /** `entryExists(for:)`: a plain existence check, no read and no decoding. */
    method EntryExists(key: string) returns (b: bool)
      ensures b == Exists(Files(), key)
    {
      if cacheDirectory.None? { return false; }
      var dir := cacheDirectory.value;
      b := dir in fileManager.directories && key in fileManager.directories[dir];
    }
  }
}
