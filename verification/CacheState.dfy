/** The response cache as a state: an index in memory, entry files, and a saved index file. */
module CacheState {
  import opened FileWrites
  import opened Results

  /** The hashed text that names an entry. */
  type Key = string

  datatype Meta = Meta(createdAt: int, hits: nat)

  datatype Entry = Entry(response: string, createdAt: int)

  /** An entry file holds a whole entry, or what a write that failed half way left behind. */
  datatype File = Torn | Whole(entry: Entry)

  datatype SavedIndex = NoIndexFile | TornIndexFile | IndexFile(entries: map<Key, Meta>)

  datatype Stats = Stats(hits: nat, misses: nat, writes: nat)

  datatype State = State(
    enabled: bool, ttl: int, index: map<Key, Meta>, stats: Stats,  // the cache object
    files: map<Key, File>, saved: SavedIndex)                      // the cache directory

  const NO_STATS := Stats(0, 0, 0)

  predicate Expired(meta: Meta, ttl: int, now: int) {
    now - meta.createdAt > ttl
  }

  function Miss(s: State): State {
    s.(stats := s.stats.(misses := s.stats.misses + 1))
  }

  /** `ResponseCache.get`; `readable` is false when reading the entry file raises. */
  function Get(s: State, key: Key, now: int, readable: bool): (State, Option<string>) {
    if !s.enabled then (s, None)
    else if key !in s.index then (Miss(s), None)
    else if Expired(s.index[key], s.ttl, now) || key !in s.files then (Miss(s.(index := s.index - {key})), None)
    else if !readable || s.files[key].Torn? then (Miss(s), None)
    else
      var meta := s.index[key];
      (s.(index := s.index[key := meta.(hits := meta.hits + 1)], stats := s.stats.(hits := s.stats.hits + 1)),
       Some(s.files[key].entry.response))
  }

  function WriteEntry(files: map<Key, File>, key: Key, entry: Entry, w: WriteEnd): map<Key, File> {
    if ReachesDisk(w) then files[key := Whole(entry)]
    else if w == CutShort then files[key := Torn]
    else files
  }

  /** `ResponseCache.set` */
  function Set(s: State, key: Key, response: string, now: int, w: WriteEnd): State {
    if !s.enabled then s
    else
      var written := s.(files := WriteEntry(s.files, key, Entry(response, now), w));
      if w == Written then
        written.(index := s.index[key := Meta(now, 0)], stats := s.stats.(writes := s.stats.writes + 1))
      else written
  }

  function WriteIndex(saved: SavedIndex, index: map<Key, Meta>, w: WriteEnd): SavedIndex {
    if ReachesDisk(w) then IndexFile(index) else if w == CutShort then TornIndexFile else saved
  }

  /** `ResponseCache.save` */
  function Save(s: State, w: WriteEnd): State {
    s.(saved := WriteIndex(s.saved, s.index, w))
  }

  /** `ResponseCache.invalidate`; `unlinked` is false when removing the file fails. */
  function Invalidate(s: State, key: Key, unlinked: bool): (State, bool) {
    if key !in s.index then (s, false)
    else (s.(index := s.index - {key}, files := if unlinked then s.files - {key} else s.files), true)
  }

  function Keep<V>(m: map<Key, V>, keys: set<Key>): map<Key, V> {
    map k | k in m && k in keys :: m[k]
  }

  /** `ResponseCache.clear`; `survivors` are the files left when removing the directory fails part way. */
  function Clear(s: State, survivors: set<Key>, w: WriteEnd): (State, nat) {
    (Save(s.(index := map[], stats := NO_STATS, files := Keep(s.files, survivors)), w), |s.index|)
  }

  function ExpiredKeys(s: State, now: int): set<Key> {
    set k | k in s.index && Expired(s.index[k], s.ttl, now)
  }

  /** `ResponseCache.cleanup_expired`; `stuck` are the files whose removal fails. */
  function Cleanup(s: State, now: int, stuck: set<Key>, w: WriteEnd): (State, nat) {
    var expired := ExpiredKeys(s, now);
    var cleaned := s.(index := s.index - expired, files := s.files - (expired - stuck));
    (if expired == {} then cleaned else Save(cleaned, w), |expired|)
  }

  /** A new cache object over the same directory. */
  function Restart(s: State, enabled: bool, ttl: int): State {
    var loaded := if enabled && s.saved.IndexFile? then s.saved.entries else map[];
    State(enabled, ttl, loaded, NO_STATS, s.files, s.saved)
  }

  // ---- What each operation leaves behind ----

  /** The entry of a key is answered from when it is known, at most as old as the time to live allows,
      and its file is there, readable and whole. */
  predicate Answers(s: State, key: Key, now: int, readable: bool) {
    && s.enabled && key in s.index && now - s.index[key].createdAt <= s.ttl
    && key in s.files && readable && s.files[key].Whole?
  }

  /** A `get` answers with what the file holds and counts the hit; it forgets an entry that is too old or
      whose file is gone, and nothing else. */
  lemma {:induction false} GetMeans(s: State, key: Key, now: int, readable: bool)
    ensures var (r, answer) := Get(s, key, now, readable);
            var known := s.enabled && key in s.index;
            var forgotten := known && (now - s.index[key].createdAt > s.ttl || key !in s.files);
            && (answer.Some? <==> Answers(s, key, now, readable))
            && (answer.Some? ==> answer.value == s.files[key].entry.response)
            && r.index == (if answer.Some? then s.index[key := Meta(s.index[key].createdAt, s.index[key].hits + 1)]
                           else if forgotten then s.index - {key} else s.index)
            && (r.files, r.saved, r.enabled, r.ttl) == (s.files, s.saved, s.enabled, s.ttl)
            && r.stats.writes == s.stats.writes
  {
  }

  /** A `set` that is written without error enters the response with a hit count of zero. One that fails
      leaves the index and the counters as they were, but the file is lost if it was cut short, and new if
      the error came after the last byte. */
  lemma {:induction false} SetMeans(s: State, key: Key, response: string, now: int, w: WriteEnd)
    ensures var r := Set(s, key, response, now, w);
            && (!s.enabled ==> r == s)
            && (s.enabled ==>
                  match w
                  case Written =>
                    r == s.(index := s.index[key := Meta(now, 0)], files := s.files[key := Whole(Entry(response, now))],
                            stats := Stats(s.stats.hits, s.stats.misses, s.stats.writes + 1))
                  case FailedAtEnd => r == s.(files := s.files[key := Whole(Entry(response, now))])
                  case CutShort => r == s.(files := s.files[key := Torn])
                  case NotOpened => r == s)
  {
  }

  /** What the index file holds after a write of `index` that ends in `w`. */
  predicate SavedAs(before: SavedIndex, after: SavedIndex, index: map<Key, Meta>, w: WriteEnd) {
    match w
    case Written => after == IndexFile(index)
    case FailedAtEnd => after == IndexFile(index)
    case CutShort => after == TornIndexFile
    case NotOpened => after == before
  }

  /** A `save` writes the index and changes nothing else. */
  lemma {:induction false} SaveMeans(s: State, w: WriteEnd)
    ensures SavedAs(s.saved, Save(s, w).saved, s.index, w) && Save(s, w).(saved := s.saved) == s
  {
  }

  /** An `invalidate` takes a known key out of the index and, unless that fails, removes its file. */
  lemma {:induction false} InvalidateMeans(s: State, key: Key, unlinked: bool, k: Key)
    ensures var (r, done) := Invalidate(s, key, unlinked);
            && (done <==> key in s.index)
            && (k in r.index <==> k in s.index && k != key)
            && (k in r.index ==> r.index[k] == s.index[k])
            && (k in r.files <==> k in s.files && !(k == key && done && unlinked))
            && (k in r.files ==> r.files[k] == s.files[k])
            && r.(index := s.index, files := s.files) == s
  {
  }

  /** A `clear` leaves no entry, no count and of the files only those that could not be removed. */
  lemma {:induction false} ClearMeans(s: State, survivors: set<Key>, w: WriteEnd, k: Key)
    ensures var (r, count) := Clear(s, survivors, w);
            && count == |s.index| && r.index == map[] && r.stats == Stats(0, 0, 0)
            && (k in r.files <==> k in s.files && k in survivors)
            && (k in r.files ==> r.files[k] == s.files[k])
            && SavedAs(s.saved, r.saved, map[], w)
            && r.enabled == s.enabled && r.ttl == s.ttl
  {
  }

  lemma {:induction false} RemovedCount(index: map<Key, Meta>, keys: set<Key>)
    requires keys <= index.Keys
    ensures |index - keys| + |keys| == |index|
  {
    assert (index - keys).Keys == index.Keys - keys;
    assert |(index - keys).Keys| == |index - keys| && |index.Keys| == |index|;
  }

  /** A clean-up keeps exactly the entries that are not too old, and removes exactly the files of the
      others that can be removed ... */
  lemma {:induction false} CleanupMeans(s: State, now: int, stuck: set<Key>, w: WriteEnd, k: Key)
    ensures var r := Cleanup(s, now, stuck, w).0;
            var stale := k in s.index && now - s.index[k].createdAt > s.ttl;
            && (k in r.index <==> k in s.index && !stale)
            && (k in r.index ==> r.index[k] == s.index[k])
            && (k in r.files <==> k in s.files && !(stale && k !in stuck))
            && (k in r.files ==> r.files[k] == s.files[k])
  {
  }

  /** ... returns how many entries went, and writes the index only if some did. */
  lemma {:induction false} CleanupCounts(s: State, now: int, stuck: set<Key>, w: WriteEnd)
    ensures var (r, count) := Cleanup(s, now, stuck, w);
            && count == |s.index| - |r.index|
            && (if count == 0 then r == s else SavedAs(s.saved, r.saved, r.index, w))
            && (r.stats, r.enabled, r.ttl) == (s.stats, s.enabled, s.ttl)
  {
    var expired := ExpiredKeys(s, now);
    RemovedCount(s.index, expired);
    if expired == {} { NothingExpired(s, stuck); }
  }

  lemma {:induction false} NothingExpired(s: State, stuck: set<Key>)
    ensures s.index - {} == s.index && s.files - ({} - stuck) == s.files
  {
  }

  /** A new cache object knows what the index file lists, if caching is on and the file can be read. */
  lemma {:induction false} RestartMeans(s: State, enabled: bool, ttl: int)
    ensures var r := Restart(s, enabled, ttl);
            && (r.enabled, r.ttl, r.files, r.saved) == (enabled, ttl, s.files, s.saved)
            && r.stats == Stats(0, 0, 0)
            && r.index == (match s.saved case IndexFile(entries) => if enabled then entries else map[] case _ => map[])
  {
  }
}
