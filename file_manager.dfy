/**
 * The part of the platform filesystem a file-backed cache touches: the
 * user's caches directory (which the platform may fail to resolve) and the
 * directories under it, each a flat set of named files holding bytes.
 * Every cache instance shares one `FileManager`, as every `AnyCache` in the
 * program uses `FileManager.default`.
 */
module FileSystem {
  import opened Wrappers
  import opened Codec
  import opened Bags

  type Path = string

  /** The regular files of one directory, by file name. */
  type Directory = map<string, Bytes>

  class FileManager {
    /** The user-domain caches directory, or `None` when the platform yields no such URL. */
    const cachesDirectory: Option<Path>
    /** Every existing directory, by path, with the files in it. */
    var directories: map<Path, Directory>

    constructor (cachesDirectory: Option<Path>, directories: map<Path, Directory>)
      ensures this.cachesDirectory == cachesDirectory && this.directories == directories
    {
      this.cachesDirectory := cachesDirectory;
      this.directories := directories;
    }

    /** `contentsOfDirectory(at:)`: the names of the files in the directory at
        `path`, each once, in an order the platform chooses; `None` (a thrown
        error) when there is no directory at `path`. */
    method ContentsOfDirectory(path: Path) returns (r: Option<seq<string>>)
      ensures r.None? <==> path !in directories
      ensures r.Some? ==> Enumerates(r.value, directories[path].Keys)
    {
      if path !in directories { return None; }
      var names := Enumerate(directories[path].Keys);
      r := Some(names);
    }
  }

  /** `appendingPathComponent`: the path of an entry named `name` inside `dir`. */
  function Join(dir: Path, name: string): (p: Path)
    ensures |p| == |dir| + 1 + |name| && p[..|dir|] == dir && p[|dir|] == '/' && p[|dir| + 1..] == name
  {
    dir + "/" + name
  }

  /** Two different cache names under one caches directory never share a directory. */
  lemma JoinSeparates(dir: Path, name1: string, name2: string)
    requires name1 != name2
    ensures Join(dir, name1) != Join(dir, name2)
  {
  }
}
