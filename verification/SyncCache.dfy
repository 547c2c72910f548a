/** The local hash cache: remembered hashes keyed by size and timestamps. */
module SyncCache {
  import opened Text

  datatype Cached = Cached(size: nat, mtime: nat, ctime: nat, sha256: string)

  type CacheMap = map<string, Cached>

  /** The remembered hash, only while size and both timestamps still match; a
      zero timestamp is an unavailable clock and never matches. */
  function HashOf(entries: CacheMap, rel: string, size: nat, mtime: nat, ctime: nat): Option<string> {
    if mtime == 0 || ctime == 0 || rel !in entries then None
    else
      var cached := entries[rel];
      if cached.size == size && cached.mtime == mtime && cached.ctime == ctime then Some(cached.sha256) else None
  }

  class Cache {
    var entries: CacheMap
    var dirty: bool

    constructor (entries: CacheMap)
      ensures this.entries == entries && !dirty
    {
      this.entries := entries;
      dirty := false;
    }

    /** Records an entry and notes whether anything actually changed. */
    method Record(rel: string, size: nat, mtime: nat, ctime: nat, sha256: string)
      modifies this
      ensures entries == old(entries)[rel := Cached(size, mtime, ctime, sha256)]
      ensures dirty <==> old(dirty) || entries != old(entries)
    {
      var entry := Cached(size, mtime, ctime, sha256);
      if rel !in entries || entries[rel] != entry {
        entries := entries[rel := entry];
        dirty := true;
        assert entries[rel] == entry;
      }
    }
  }
}
