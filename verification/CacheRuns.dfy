/** What the response cache promises over whole runs of operations, restarts and failing writes. */
module CacheRuns {
  import opened CacheState
  import opened FileWrites
  import opened Results

  datatype Op =
    | GetOp(key: Key, readable: bool)
    | SetOp(key: Key, response: string, w: WriteEnd)
    | InvalidateOp(key: Key, unlinked: bool)
    | ClearOp(survivors: set<Key>, w: WriteEnd)
    | CleanupOp(stuck: set<Key>, w: WriteEnd)
    | SaveOp(w: WriteEnd)
    | RestartOp(enabled: bool, ttl: int)

  /** An operation at a time of the clock. */
  datatype Event = Event(now: int, op: Op)

  function Step(s: State, e: Event): State {
    match e.op
    case GetOp(key, readable) => Get(s, key, e.now, readable).0
    case SetOp(key, response, w) => Set(s, key, response, e.now, w)
    case InvalidateOp(key, unlinked) => Invalidate(s, key, unlinked).0
    case ClearOp(survivors, w) => Clear(s, survivors, w).0
    case CleanupOp(stuck, w) => Cleanup(s, e.now, stuck, w).0
    case SaveOp(w) => Save(s, w)
    case RestartOp(enabled, ttl) => Restart(s, enabled, ttl)
  }

  function Run(s: State, es: seq<Event>): State {
    if es == [] then s else Step(Run(s, es[..|es| - 1]), es[|es| - 1])
  }

  /** What a `get` at time `now` returns after the run `es`. */
  function Answer(s: State, es: seq<Event>, key: Key, now: int, readable: bool): Option<string> {
    Get(Run(s, es), key, now, readable).1
  }

  /** A cache over an empty directory. */
  function Start(enabled: bool, ttl: int): State {
    State(enabled, ttl, map[], NO_STATS, map[], NoIndexFile)
  }

  /** The clock never runs backwards, and `now` is not before the last event. */
  predicate Ordered(es: seq<Event>, now: int) {
    && (forall i, j | 0 <= i <= j < |es| :: es[i].now <= es[j].now)
    && (es != [] ==> es[|es| - 1].now <= now)
  }

  lemma {:induction false} OrderedInit(es: seq<Event>, now: int)
    requires es != [] && Ordered(es, now)
    ensures Ordered(es[..|es| - 1], es[|es| - 1].now) && es[|es| - 1].now <= now
  {
  }

  // ---- Freshness over every run ----

  /** Whether caching is on after a run, read off the restarts alone. */
  function EnabledAfter(first: bool, es: seq<Event>): bool {
    if es == [] then first
    else match es[|es| - 1].op
      case RestartOp(enabled, _) => enabled
      case _ => EnabledAfter(first, es[..|es| - 1])
  }

  function TtlAfter(first: int, es: seq<Event>): int {
    if es == [] then first
    else match es[|es| - 1].op
      case RestartOp(_, ttl) => ttl
      case _ => TtlAfter(first, es[..|es| - 1])
  }

  /** The journal of complete writes after one more event, with caching on or off before it. */
  function Journal(enabled: bool, written: map<Key, Entry>, e: Event): map<Key, Entry> {
    match e.op
    case SetOp(key, response, w) =>
      if enabled && ReachesDisk(w) then written[key := Entry(response, e.now)] else written
    case _ => written
  }

  /** The last response that a run wrote out completely for each key, with the time of the write. */
  function LastWritten(first: bool, es: seq<Event>): map<Key, Entry> {
    if es == [] then map[]
    else
      var init := es[..|es| - 1];
      Journal(EnabledAfter(first, init), LastWritten(first, init), es[|es| - 1])
  }

  /** No entry is dated later than the last complete write of its key. */
  predicate NotNewer(index: map<Key, Meta>, written: map<Key, Entry>) {
    forall k | k in index :: k in written && index[k].createdAt <= written[k].createdAt
  }

  /** The carried invariant: entry files hold the last complete writes, and neither the index in
      memory nor the saved one is ahead of them. */
  predicate Fresh(s: State, written: map<Key, Entry>, clock: int) {
    && (forall k | k in s.files && s.files[k].Whole? :: k in written && s.files[k].entry == written[k])
    && (forall k | k in written :: written[k].createdAt <= clock)
    && NotNewer(s.index, written)
    && (s.saved.IndexFile? ==> NotNewer(s.saved.entries, written))
  }

  lemma {:induction false} SetKeepsFresh(s: State, written: map<Key, Entry>, clock: int, key: Key, response: string,
                                         now: int, w: WriteEnd)
    requires Fresh(s, written, clock) && clock <= now
    ensures Fresh(Set(s, key, response, now, w),
                  if s.enabled && ReachesDisk(w) then written[key := Entry(response, now)] else written, now)
  {
  }

  lemma {:induction false} ClearOnlyDrops(s: State, survivors: set<Key>, w: WriteEnd)
    ensures var r := Clear(s, survivors, w).0;
            && (forall k | k in r.files :: k in s.files && r.files[k] == s.files[k])
            && r.index == map[] && r.enabled == s.enabled && r.ttl == s.ttl && r.stats == NO_STATS
            && (r.saved.IndexFile? ==> r.saved == s.saved || r.saved.entries == map[])
  {
  }

  lemma {:induction false} CleanupOnlyDrops(s: State, now: int, stuck: set<Key>, w: WriteEnd)
    ensures var r := Cleanup(s, now, stuck, w).0;
            && (forall k | k in r.files :: k in s.files && r.files[k] == s.files[k])
            && (forall k | k in r.index :: k in s.index && r.index[k] == s.index[k])
            && r.enabled == s.enabled && r.ttl == s.ttl && r.stats == s.stats
            && (r.saved.IndexFile? ==> r.saved == s.saved || r.saved.entries == r.index)
  {
  }

  /** Operations that only drop files, drop index entries or save the index keep the invariant. */
  lemma {:induction false} LessIsFresh(s: State, r: State, written: map<Key, Entry>, clock: int, now: int)
    requires Fresh(s, written, clock) && clock <= now
    requires forall k | k in r.files :: k in s.files && r.files[k] == s.files[k]
    requires NotNewer(r.index, written)
    requires r.saved.IndexFile? ==> r.saved == s.saved || NotNewer(r.saved.entries, written)
    ensures Fresh(r, written, now)
  {
  }

  lemma {:induction false} GetKeepsFresh(s: State, written: map<Key, Entry>, clock: int, key: Key, now: int,
                                         readable: bool)
    requires Fresh(s, written, clock) && clock <= now
    ensures Fresh(Get(s, key, now, readable).0, written, now)
  {
    LessIsFresh(s, Get(s, key, now, readable).0, written, clock, now);
  }

  lemma {:induction false} InvalidateKeepsFresh(s: State, written: map<Key, Entry>, clock: int, key: Key,
                                                unlinked: bool, now: int)
    requires Fresh(s, written, clock) && clock <= now
    ensures Fresh(Invalidate(s, key, unlinked).0, written, now)
  {
    LessIsFresh(s, Invalidate(s, key, unlinked).0, written, clock, now);
  }

  lemma {:induction false} ClearKeepsFresh(s: State, written: map<Key, Entry>, clock: int, survivors: set<Key>,
                                           w: WriteEnd, now: int)
    requires Fresh(s, written, clock) && clock <= now
    ensures Fresh(Clear(s, survivors, w).0, written, now)
  {
    ClearOnlyDrops(s, survivors, w);
    LessIsFresh(s, Clear(s, survivors, w).0, written, clock, now);
  }

  lemma {:induction false} CleanupKeepsFresh(s: State, written: map<Key, Entry>, clock: int, now: int, stuck: set<Key>,
                                             w: WriteEnd)
    requires Fresh(s, written, clock) && clock <= now
    ensures Fresh(Cleanup(s, now, stuck, w).0, written, now)
  {
    CleanupOnlyDrops(s, now, stuck, w);
    LessIsFresh(s, Cleanup(s, now, stuck, w).0, written, clock, now);
  }

  lemma {:induction false} MaintenanceKeepsFresh(s: State, written: map<Key, Entry>, clock: int, e: Event)
    requires Fresh(s, written, clock) && clock <= e.now
    requires e.op.ClearOp? || e.op.CleanupOp? || e.op.InvalidateOp?
    ensures Fresh(Step(s, e), written, e.now)
  {
    match e.op
    case InvalidateOp(key, unlinked) => InvalidateKeepsFresh(s, written, clock, key, unlinked, e.now);
    case ClearOp(survivors, w) => ClearKeepsFresh(s, written, clock, survivors, w, e.now);
    case CleanupOp(stuck, w) => CleanupKeepsFresh(s, written, clock, e.now, stuck, w);
  }

  lemma {:induction false} StepKeepsFresh(s: State, written: map<Key, Entry>, clock: int, e: Event)
    requires Fresh(s, written, clock) && clock <= e.now
    ensures Fresh(Step(s, e), Journal(s.enabled, written, e), e.now)
  {
    match e.op {
      case GetOp(key, readable) => GetKeepsFresh(s, written, clock, key, e.now, readable);
      case SetOp(key, response, w) => SetKeepsFresh(s, written, clock, key, response, e.now, w);
      case SaveOp(w) => LessIsFresh(s, Save(s, w), written, clock, e.now);
      case RestartOp(enabled, ttl) => LessIsFresh(s, Restart(s, enabled, ttl), written, clock, e.now);
      case _ => MaintenanceKeepsFresh(s, written, clock, e);
    }
  }

  lemma {:induction false} StepSettings(s: State, e: Event)
    ensures Step(s, e).enabled == match e.op case RestartOp(enabled, _) => enabled case _ => s.enabled
    ensures Step(s, e).ttl == match e.op case RestartOp(_, ttl) => ttl case _ => s.ttl
  {
    match e.op
    case ClearOp(survivors, w) => ClearOnlyDrops(s, survivors, w);
    case CleanupOp(stuck, w) => CleanupOnlyDrops(s, e.now, stuck, w);
    case _ =>
  }

  lemma {:induction false} RunIsFresh(enabled: bool, ttl: int, es: seq<Event>, now: int)
    requires Ordered(es, now)
    ensures var s := Run(Start(enabled, ttl), es);
            && Fresh(s, LastWritten(enabled, es), now)
            && s.enabled == EnabledAfter(enabled, es) && s.ttl == TtlAfter(ttl, es)
  {
    if es != [] {
      var init, last := es[..|es| - 1], es[|es| - 1];
      OrderedInit(es, now);
      RunIsFresh(enabled, ttl, init, last.now);
      var s := Run(Start(enabled, ttl), init);
      StepKeepsFresh(s, LastWritten(enabled, init), last.now, last);
      StepSettings(s, last);
    }
  }

  /** Over every run, with restarts that reload the last saved index and writes that fail half way,
      a response that is returned is the last one completely written for its key, and no older
      than the time to live. */
  lemma {:induction false} AnswersAreFresh(enabled: bool, ttl: int, es: seq<Event>, key: Key, now: int, readable: bool)
    requires Ordered(es, now)
    ensures var answer := Answer(Start(enabled, ttl), es, key, now, readable);
            var written := LastWritten(enabled, es);
            answer.Some? ==>
              && EnabledAfter(enabled, es)
              && key in written && answer.value == written[key].response
              && now - written[key].createdAt <= TtlAfter(ttl, es)
  {
    RunIsFresh(enabled, ttl, es, now);
  }

  // ---- Invalidation ----

  predicate NoSetOf(es: seq<Event>, key: Key) {
    forall e | e in es :: !(e.op.SetOp? && e.op.key == key)
  }

  predicate SavedHas(saved: SavedIndex, key: Key) {
    saved.IndexFile? && key in saved.entries
  }

  predicate HasWholeFile(s: State, key: Key) {
    key in s.files && s.files[key].Whole?
  }

  /** The call cannot reach the response: the saved index still lists a whole entry file, and the call
      leaves the file, because the key is not in the index in memory or the removal fails. */
  predicate Survives(s: State, key: Key, unlinked: bool) {
    HasWholeFile(s, key) && SavedHas(s.saved, key) && !(key in s.index && unlinked)
  }

  /** What a directory holds for a key is what another one held. */
  predicate Unwritten(after: map<Key, File>, before: map<Key, File>, key: Key) {
    key in after ==> key in before && after[key] == before[key]
  }

  lemma {:induction false} SettersAndGettersKeep(s: State, key: Key, k: Key, response: string, now: int, w: WriteEnd,
                                                 flag: bool, ttl: int)
    ensures k != key ==> Unwritten(Set(s, k, response, now, w).files, s.files, key)
    ensures Get(s, k, now, flag).0.files == Save(s, w).files == Restart(s, flag, ttl).files == s.files
    ensures Unwritten(Invalidate(s, k, flag).0.files, s.files, key)
  {
  }

  /** Nothing but a `set` of the key puts anything new into its entry file. */
  lemma {:induction false} OnlySetWrites(s: State, e: Event, key: Key)
    requires !(e.op.SetOp? && e.op.key == key)
    ensures Unwritten(Step(s, e).files, s.files, key)
  {
    var now := e.now;
    match e.op {
      case GetOp(k, readable) =>
        SettersAndGettersKeep(s, key, k, "", now, Written, readable, 0);
        assert Step(s, e).files == s.files;
      case SetOp(k, response, w) =>
        SettersAndGettersKeep(s, key, k, response, now, w, true, 0);
        assert Step(s, e) == Set(s, k, response, now, w);
      case InvalidateOp(k, unlinked) =>
        SettersAndGettersKeep(s, key, k, "", now, Written, unlinked, 0);
        assert Step(s, e) == Invalidate(s, k, unlinked).0;
      case ClearOp(survivors, w) =>
        ClearOnlyDrops(s, survivors, w);
        assert Step(s, e) == Clear(s, survivors, w).0;
      case CleanupOp(stuck, w) =>
        CleanupOnlyDrops(s, now, stuck, w);
        assert Step(s, e) == Cleanup(s, now, stuck, w).0;
      case SaveOp(w) =>
        SettersAndGettersKeep(s, key, key, "", now, w, true, 0);
        assert Step(s, e).files == s.files;
      case RestartOp(enabled, ttl) =>
        SettersAndGettersKeep(s, key, key, "", now, Written, enabled, ttl);
        assert Step(s, e).files == s.files;
    }
  }

  /** Wherever an index lists the key, the time of creation has the property. */
  predicate Dated(s: State, key: Key, p: int -> bool) {
    && (key in s.index ==> p(s.index[key].createdAt))
    && (SavedHas(s.saved, key) ==> p(s.saved.entries[key].createdAt))
  }

  lemma {:induction false} MaintenanceKeepsDates(s: State, e: Event, key: Key, p: int -> bool)
    requires Dated(s, key, p) && (e.op.ClearOp? || e.op.CleanupOp? || e.op.InvalidateOp?)
    ensures Dated(Step(s, e), key, p)
  {
    match e.op
    case ClearOp(survivors, w) => ClearOnlyDrops(s, survivors, w);
    case CleanupOp(stuck, w) => CleanupOnlyDrops(s, e.now, stuck, w);
    case InvalidateOp(k, unlinked) =>
  }

  lemma {:induction false} GetKeepsDates(s: State, key: Key, k: Key, now: int, readable: bool, p: int -> bool)
    requires Dated(s, key, p)
    ensures Dated(Get(s, k, now, readable).0, key, p)
  {
  }

  /** No step but a `set` of the key gives its entry a new time of creation. */
  lemma {:induction false} DatesComeFrom(s: State, e: Event, key: Key, p: int -> bool)
    requires Dated(s, key, p) && !(e.op.SetOp? && e.op.key == key)
    ensures Dated(Step(s, e), key, p)
  {
    match e.op {
      case GetOp(k, readable) => GetKeepsDates(s, key, k, e.now, readable, p);
      case SetOp(k, response, w) => assert Set(s, k, response, e.now, w).saved == s.saved;
      case SaveOp(w) => assert Save(s, w).index == s.index;
      case RestartOp(enabled, ttl) => assert Restart(s, enabled, ttl).saved == s.saved;
      case _ => MaintenanceKeepsDates(s, e, key, p);
    }
  }

  lemma {:induction false} StaysDated(s: State, key: Key, es: seq<Event>, p: int -> bool)
    requires Dated(s, key, p) && NoSetOf(es, key)
    ensures Dated(Run(s, es), key, p)
  {
    if es != [] {
      var init, last := es[..|es| - 1], es[|es| - 1];
      assert last in es && forall e | e in init :: e in es;
      StaysDated(s, key, init, p);
      DatesComeFrom(Run(s, init), last, key, p);
    }
  }

  function Never(): int -> bool {
    (created: int) => false
  }

  /** Older at the time `at` than the time to live allows. */
  function Outlived(ttl: int, at: int): int -> bool {
    (created: int) => at - created > ttl
  }

  /** The key has no response to give: no whole file, or no index that lists it. */
  predicate Gone(s: State, key: Key) {
    HasWholeFile(s, key) ==> Dated(s, key, Never())
  }

  lemma {:induction false} StaysGone(s: State, key: Key, es: seq<Event>)
    requires Gone(s, key) && NoSetOf(es, key)
    ensures Gone(Run(s, es), key)
  {
    if es != [] {
      var init, last := es[..|es| - 1], es[|es| - 1];
      assert last in es && forall e | e in init :: e in es;
      StaysGone(s, key, init);
      var before := Run(s, init);
      OnlySetWrites(before, last, key);
      if HasWholeFile(before, key) { DatesComeFrom(before, last, key, Never()); }
    }
  }

  /** Exactly when an invalidation is final, for every state of cache and directory: after the call, and
      as long as the key is not set again, no run of operations, restarts and failures makes a `get`
      answer for it, if and only if the response does not survive the call as described above. */
  lemma {:induction false} InvalidationIsFinal(s: State, key: Key, unlinked: bool)
    ensures (forall es, now, readable | NoSetOf(es, key) ::
               Answer(Invalidate(s, key, unlinked).0, es, key, now, readable).None?)
            <==> !Survives(s, key, unlinked)
  {
    var t := Invalidate(s, key, unlinked).0;
    if Survives(s, key, unlinked) {
      var now := s.saved.entries[key].createdAt;
      var es := [Event(now, RestartOp(true, 0))];
      assert es[..0] == [];
      assert Run(t, []) == t && Run(t, es) == Restart(t, true, 0);
      assert NoSetOf(es, key) && Answer(t, es, key, now, true).Some?;
    } else {
      forall es, now, readable | NoSetOf(es, key) ensures Answer(t, es, key, now, readable).None? {
        StaysGone(t, key, es);
      }
    }
  }

  /** Nothing happens before the time `at`, and the clock never runs backwards. */
  predicate Since(es: seq<Event>, at: int, now: int) {
    Ordered(es, now) && at <= now && forall e | e in es :: at <= e.now
  }

  lemma {:induction false} RestartAlone(s: State, at: int, enabled: bool, ttl: int)
    ensures var es := [Event(at, RestartOp(enabled, ttl))]; Since(es, at, at) && Run(s, es) == Restart(s, enabled, ttl)
  {
    var es := [Event(at, RestartOp(enabled, ttl))];
    assert es[..0] == [];
    assert Run(s, []) == s;
  }

  /** The same over runs that begin no earlier than the call: a restart may set any time to live, so
      the age of the response does not help. */
  lemma {:induction false} InvalidationIsFinalAfter(s: State, key: Key, unlinked: bool, at: int)
    ensures (forall es, now, readable | NoSetOf(es, key) && Since(es, at, now) ::
               Answer(Invalidate(s, key, unlinked).0, es, key, now, readable).None?)
            <==> !Survives(s, key, unlinked)
  {
    var t := Invalidate(s, key, unlinked).0;
    if Survives(s, key, unlinked) {
      var age := at - s.saved.entries[key].createdAt;
      RestartAlone(t, at, true, age);
      assert Answer(t, [Event(at, RestartOp(true, age))], key, at, true).Some?;
    } else {
      InvalidationIsFinal(s, key, unlinked);
    }
  }

  /** Every restart keeps the settings. */
  predicate SameSettings(es: seq<Event>, enabled: bool, ttl: int) {
    forall e | e in es && e.op.RestartOp? :: e.op.enabled == enabled && e.op.ttl == ttl
  }

  lemma {:induction false} SettingsStay(s: State, es: seq<Event>)
    requires SameSettings(es, s.enabled, s.ttl)
    ensures Run(s, es).enabled == s.enabled && Run(s, es).ttl == s.ttl
  {
    if es != [] {
      var init, last := es[..|es| - 1], es[|es| - 1];
      assert last in es && forall e | e in init :: e in es;
      SettingsStay(s, init);
      StepSettings(Run(s, init), last);
    }
  }

  /** And over runs whose restarts keep the settings: then the response must also be young enough, by
      its entry in the saved index, at the time of the call. */
  lemma {:induction false} InvalidationIsFinalUnderSettings(s: State, key: Key, unlinked: bool, at: int)
    ensures (forall es, now, readable | NoSetOf(es, key) && Since(es, at, now) && SameSettings(es, s.enabled, s.ttl) ::
               Answer(Invalidate(s, key, unlinked).0, es, key, now, readable).None?)
            <==> !(Survives(s, key, unlinked) && s.enabled && !Expired(s.saved.entries[key], s.ttl, at))
  {
    var t := Invalidate(s, key, unlinked).0;
    if !Survives(s, key, unlinked) {
      InvalidationIsFinal(s, key, unlinked);
    } else if s.enabled && !Expired(s.saved.entries[key], s.ttl, at) {
      RestartAlone(t, at, s.enabled, s.ttl);
      assert Answer(t, [Event(at, RestartOp(s.enabled, s.ttl))], key, at, true).Some?;
    } else {
      forall es, now, readable | NoSetOf(es, key) && Since(es, at, now) && SameSettings(es, s.enabled, s.ttl)
        ensures Answer(t, es, key, now, readable).None?
      {
        SettingsStay(t, es);
        if s.enabled { StaysDated(t, key, es, Outlived(s.ttl, at)); }
      }
    }
  }

  /** How it survives. A removal that fails is one way ... */
  lemma {:induction false} StuckFileComesBack(key: Key, response: string, ttl: int)
    requires ttl >= 0
    ensures var es := [Event(0, SetOp(key, response, Written)), Event(0, SaveOp(Written)),
                       Event(0, InvalidateOp(key, false)), Event(0, RestartOp(true, ttl))];
            Answer(Start(true, ttl), es, key, 0, true) == Some(response)
  {
    var e0, e1 := Event(0, SetOp(key, response, Written)), Event(0, SaveOp(Written));
    var e2, e3 := Event(0, InvalidateOp(key, false)), Event(0, RestartOp(true, ttl));
    RunOfFour(Start(true, ttl), e0, e1, e2, e3);
  }

  /** ... and an entry that an earlier `get` has dropped from memory as too old is another: the
      invalidation does not find it, and a restart with a longer time to live brings it back. */
  lemma {:induction false} DroppedEntryComesBack(key: Key, response: string, ttl: int, age: int)
    requires 0 <= ttl < age
    ensures var s := Set(Start(true, ttl), key, response, 0, Written);
            var es := [Event(0, SaveOp(Written)), Event(age, GetOp(key, true)), Event(age, InvalidateOp(key, true)),
                       Event(age, RestartOp(true, age))];
            Answer(s, es, key, age, true) == Some(response)
  {
    var s := Set(Start(true, ttl), key, response, 0, Written);
    RunOfFour(s, Event(0, SaveOp(Written)), Event(age, GetOp(key, true)), Event(age, InvalidateOp(key, true)),
              Event(age, RestartOp(true, age)));
  }

  lemma {:induction false} RunOfFour(s: State, a: Event, b: Event, c: Event, d: Event)
    ensures Run(s, [a, b, c, d]) == Step(Step(Step(Step(s, a), b), c), d)
  {
    assert [a, b, c, d][..3] == [a, b, c] && [a, b, c][..2] == [a, b] && [a, b][..1] == [a] && [a][..0] == [];
    assert Run(s, []) == s;
    assert Run(s, [a]) == Step(s, a);
    assert Run(s, [a, b]) == Step(Step(s, a), b);
    assert Run(s, [a, b, c]) == Step(Step(Step(s, a), b), c);
  }

  // ---- Without restarts: a timed map ----

  /** No restart, and no entry file left torn or ahead of the index; every other failure is allowed. */
  predicate Clean(e: Event) {
    match e.op
    case SetOp(_, _, w) => w == Written || w == NotOpened
    case RestartOp(_, _) => false
    case _ => true
  }

  /** What an event makes of the last complete `set` of a key. */
  function Relate(last: Option<Entry>, e: Event, key: Key): Option<Entry> {
    match e.op
    case SetOp(k, response, w) => if k == key && w == Written then Some(Entry(response, e.now)) else last
    case InvalidateOp(k, _) => if k == key then None else last
    case ClearOp(_, _) => None
    case _ => last
  }

  /** The last complete `set` of a key that no `invalidate` or `clear` has followed. */
  function LastSet(es: seq<Event>, key: Key): Option<Entry> {
    if es == [] then None else Relate(LastSet(es[..|es| - 1], key), es[|es| - 1], key)
  }

  /** A plain map whose values are good for `ttl`. */
  function TimedMap(last: Option<Entry>, ttl: int, now: int): Option<string> {
    match last
    case Some(entry) => if now - entry.createdAt <= ttl then Some(entry.response) else None
    case None => None
  }

  /** The two stores agree with the timed map on one key. */
  predicate Agrees(s: State, last: Option<Entry>, key: Key, clock: int) {
    && s.enabled
    && (key in s.index ==>
          && last.Some? && s.index[key].createdAt == last.value.createdAt
          && key in s.files && s.files[key] == Whole(last.value))
    && (key !in s.index && last.Some? ==> clock - last.value.createdAt > s.ttl)
  }

  lemma {:induction false} StepAgrees(s: State, last: Option<Entry>, key: Key, clock: int, e: Event)
    requires Agrees(s, last, key, clock) && clock <= e.now && Clean(e)
    ensures Agrees(Step(s, e), Relate(last, e, key), key, e.now)
    ensures Step(s, e).ttl == s.ttl
  {
  }

  lemma {:induction false} RunAgrees(ttl: int, files: map<Key, File>, es: seq<Event>, key: Key, now: int)
    requires Ordered(es, now) && forall e | e in es :: Clean(e)
    ensures var s := Run(Start(true, ttl).(files := files), es);
            Agrees(s, LastSet(es, key), key, now) && s.ttl == ttl
  {
    if es != [] {
      var init, last := es[..|es| - 1], es[|es| - 1];
      assert last in es && forall e | e in init :: e in es;
      OrderedInit(es, now);
      RunAgrees(ttl, files, init, key, last.now);
      StepAgrees(Run(Start(true, ttl).(files := files), init), LastSet(init, key), key, last.now, last);
    }
  }

  /** Without restarts, and with no entry write that fails part way, the cache is exactly the timed map: a
      `get` returns the last complete `set` not followed by `invalidate` or `clear` if and only if its age
      is at most the time to live. Failing reads, removals and saves do not matter, nor do entry files left
      over from earlier. */
  lemma {:induction false} RefinesTimedMap(ttl: int, files: map<Key, File>, es: seq<Event>, key: Key, now: int)
    requires Ordered(es, now) && forall e | e in es :: Clean(e)
    ensures Answer(Start(true, ttl).(files := files), es, key, now, true) == TimedMap(LastSet(es, key), ttl, now)
  {
    RunAgrees(ttl, files, es, key, now);
  }

  // ---- Statistics ----

  /** The `get` calls made while caching was on, since the last `clear` or restart. */
  function GetsCounted(first: bool, es: seq<Event>): nat {
    if es == [] then 0
    else
      var init := es[..|es| - 1];
      match es[|es| - 1].op
      case GetOp(_, _) => GetsCounted(first, init) + if EnabledAfter(first, init) then 1 else 0
      case ClearOp(_, _) => 0
      case RestartOp(_, _) => 0
      case _ => GetsCounted(first, init)
  }

  /** Every `get` of an enabled cache counts as exactly one hit or one miss, failures included. */
  lemma {:induction false} HitsAndMissesAddUp(enabled: bool, ttl: int, es: seq<Event>)
    ensures var s := Run(Start(enabled, ttl), es);
            && s.stats.hits + s.stats.misses == GetsCounted(enabled, es)
            && s.enabled == EnabledAfter(enabled, es)
  {
    if es != [] {
      HitsAndMissesAddUp(enabled, ttl, es[..|es| - 1]);
      var s := Run(Start(enabled, ttl), es[..|es| - 1]);
      StepSettings(s, es[|es| - 1]);
      StepCounts(s, es[|es| - 1]);
    }
  }

  lemma {:induction false} StepCounts(s: State, e: Event)
    ensures var r := Step(s, e);
            r.stats.hits + r.stats.misses
            == match e.op
               case GetOp(_, _) => s.stats.hits + s.stats.misses + (if s.enabled then 1 else 0)
               case ClearOp(_, _) => 0
               case RestartOp(_, _) => 0
               case _ => s.stats.hits + s.stats.misses
  {
    match e.op
    case GetOp(key, readable) => HitMeansAnswer(s, key, e.now, readable);
    case ClearOp(survivors, w) => ClearOnlyDrops(s, survivors, w);
    case CleanupOp(stuck, w) => CleanupOnlyDrops(s, e.now, stuck, w);
    case _ =>
  }

  /** A hit is counted exactly when a response is returned. */
  lemma {:induction false} HitMeansAnswer(s: State, key: Key, now: int, readable: bool)
    ensures var (r, answer) := Get(s, key, now, readable);
            && r.stats.hits == s.stats.hits + (if answer.Some? then 1 else 0)
            && r.stats.misses == s.stats.misses + (if s.enabled && answer.None? then 1 else 0)
  {
  }
}
