/** The response cache as objects: a cache over a directory that outlives it. */
module ResponseCache {
  import opened CacheState
  import opened FileWrites
  import opened Results

  /** The cache directory. */
  class Directory {
    var files: map<Key, File>
    var saved: SavedIndex

    constructor ()
      ensures files == map[] && saved == NoIndexFile
    {
      files, saved := map[], NoIndexFile;
    }

    /** Opens the entry file of `key` for writing and dumps `entry` into it. */
    method WriteFile(key: Key, entry: Entry, w: WriteEnd) returns (ok: bool)
      modifies this`files
      ensures files == WriteEntry(old(files), key, entry, w)
      ensures ok <==> w == Written
    {
      if w == NotOpened { return false; }
      files := files[key := Torn];
      if w == CutShort { return false; }
      files := files[key := Whole(entry)];
      ok := w == Written;
    }
  }

  class ResponseCache {
    const directory: Directory
    const enabled: bool
    const ttl: int
    var index: map<Key, Meta>
    var hits: nat
    var misses: nat
    var writes: nat

    /** The cache and its directory as a value. */
    ghost function Contents(): State
      reads this, directory
    {
      State(enabled, ttl, index, Stats(hits, misses, writes), directory.files, directory.saved)
    }

    constructor (directory: Directory, enabled: bool, ttl: int)
      ensures this.directory == directory
      ensures forall before: State | before.files == directory.files && before.saved == directory.saved ::
                Contents() == Restart(before, enabled, ttl)
    {
      this.directory := directory;
      this.enabled := enabled;
      this.ttl := ttl;
      hits, misses, writes := 0, 0, 0;
      index := if enabled && directory.saved.IndexFile? then directory.saved.entries else map[];
    }

    method SaveIndex(w: WriteEnd)
      modifies directory`saved
      ensures Contents() == Save(old(Contents()), w)
    {
      if w != NotOpened {
        directory.saved := TornIndexFile;
        if w != CutShort { directory.saved := IndexFile(index); }
      }
    }

    method Lookup(key: Key, now: int, readable: bool) returns (response: Option<string>)
      modifies this
      ensures (Contents(), response) == Get(old(Contents()), key, now, readable)
    {
      if !enabled { return None; }
      if key !in index {
        misses := misses + 1;
        return None;
      }
      if Expired(index[key], ttl, now) {
        index := index - {key};
        misses := misses + 1;
        return None;
      }
      if key !in directory.files {
        index := index - {key};
        misses := misses + 1;
        return None;
      }
      if !readable || directory.files[key].Torn? {
        misses := misses + 1;
        return None;
      }
      index := index[key := index[key].(hits := index[key].hits + 1)];
      hits := hits + 1;
      response := Some(directory.files[key].entry.response);
    }

    method Store(key: Key, response: string, now: int, w: WriteEnd)
      modifies this, directory`files
      ensures Contents() == Set(old(Contents()), key, response, now, w)
    {
      if !enabled { return; }
      var ok := directory.WriteFile(key, Entry(response, now), w);
      if ok {
        index := index[key := Meta(now, 0)];
        writes := writes + 1;
      }
    }

    method InvalidateEntry(key: Key, unlinked: bool) returns (done: bool)
      modifies this`index, directory`files
      ensures (Contents(), done) == Invalidate(old(Contents()), key, unlinked)
    {
      if key !in index { return false; }
      index := index - {key};
      if key in directory.files && unlinked {
        directory.files := directory.files - {key};
      }
      assert key !in old(directory.files) ==> old(directory.files) - {key} == old(directory.files);
      done := true;
    }

    method ClearAll(survivors: set<Key>, w: WriteEnd) returns (count: nat)
      modifies this, directory
      ensures (Contents(), count) == Clear(old(Contents()), survivors, w)
    {
      count := |index|;
      index := map[];
      hits, misses, writes := 0, 0, 0;
      directory.files := Keep(directory.files, survivors);
      SaveIndex(w);
    }

    method CleanupExpired(now: int, stuck: set<Key>, w: WriteEnd) returns (count: nat)
      modifies this`index, directory
      ensures (Contents(), count) == Cleanup(old(Contents()), now, stuck, w)
    {
      ghost var before := Contents();
      var expired := FindExpired(now);
      var rest := expired;
      while rest != {}
        invariant rest <= expired
        invariant index == before.index - (expired - rest)
        invariant directory.files == before.files - (expired - rest - stuck)
        invariant directory.saved == before.saved
        decreases rest
      {
        var key :| key in rest;
        if key in directory.files && key !in stuck {
          directory.files := directory.files - {key};
        }
        if key in index {
          index := index - {key};
        }
        rest := rest - {key};
      }
      assert expired - rest == expired;
      assert expired - rest - stuck == expired - stuck;
      if expired != {} {
        SaveIndex(w);
      }
      count := |expired|;
    }

    /** The first loop of the clean-up: collects the expired keys. */
    method FindExpired(now: int) returns (expired: set<Key>)
      ensures expired == ExpiredKeys(Contents(), now)
    {
      expired := {};
      var rest := index.Keys;
      while rest != {}
        invariant rest <= index.Keys
        invariant expired == set k | k in index && k !in rest && Expired(index[k], ttl, now)
        decreases rest
      {
        var key :| key in rest;
        if Expired(index[key], ttl, now) {
          expired := expired + {key};
        }
        rest := rest - {key};
      }
    }
  }
}
