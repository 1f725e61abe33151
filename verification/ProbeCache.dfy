/** Probe results kept at two levels, a session map over a file with time limits, as values. */
module ProbeCache {
  import opened FileWrites
  import opened Results

  /** The shortened hash that stands for a model name. */
  type Key = string

  /** The fields of a probe result that never change. `probeTime` is absent when the text stored
      for it is empty or cannot be read as a time. */
  datatype Facts = Facts(model: string, provider: string, usable: bool, errorCode: Option<string>,
                         errorMessage: Option<string>, shouldRetry: bool, probeTime: Option<int>, durationMs: int)

  /** Times are in microseconds. */
  const SECOND := 1_000_000
  const TTL_SUCCESS := 3_600 * SECOND
  const TTL_PERMANENT_ERROR := 86_400 * SECOND
  const TTL_TRANSIENT_ERROR := 300 * SECOND

  function Ttl(errorCode: Option<string>): int {
    if errorCode.None? || errorCode.value == "success" then TTL_SUCCESS
    else if errorCode.value == "permission_denied" || errorCode.value == "unavailable_model" then TTL_PERMANENT_ERROR
    else TTL_TRANSIENT_ERROR
  }

  /** `_is_cache_valid` */
  predicate IsValid(facts: Facts, now: int) {
    facts.probeTime.Some? && now - facts.probeTime.value < Ttl(facts.errorCode)
  }

  datatype State = State(
    useCache: bool, session: map<Key, Facts>, probes: map<Key, Facts>,  // the probe object
    disk: map<Key, Facts>)                                              // the cache file

  datatype Origin = FromSession | FromFile | Probed

  /** What a cache file holds after a write of `probes`; a torn file loads as an empty one. */
  function WriteProbes(disk: map<Key, Facts>, probes: map<Key, Facts>, w: WriteEnd): map<Key, Facts> {
    if ReachesDisk(w) then probes else if w == CutShort then map[] else disk
  }

  /** The session takes the result that the file has for the key. */
  function Load(s: State, key: Key): State
    requires key in s.probes
  {
    s.(session := s.session[key := s.probes[key]])
  }

  /** The session takes the result of a probe, and so does the file if it is in use. */
  function Store(s: State, key: Key, found: Facts, w: WriteEnd): State {
    var probed := s.(session := s.session[key := found]);
    var probes := s.probes[key := found];
    if s.useCache then probed.(probes := probes, disk := WriteProbes(s.disk, probes, w)) else probed
  }

  /** `check_model`; `found` is what probing the model at this moment would give. The result is the one now
      held for the key in the session. */
  function Check(s: State, key: Key, force: bool, now: int, found: Facts, w: WriteEnd): (State, Facts, Origin) {
    if !force && key in s.session then (s, s.session[key], FromSession)
    else if !force && s.useCache && key in s.probes && IsValid(s.probes[key], now) then
      (Load(s, key), s.probes[key], FromFile)
    else (Store(s, key, found, w), found, Probed)
  }

  /** Whether the caller gets the error of the file write instead of the result. */
  predicate Raises(s: State, origin: Origin, w: WriteEnd) {
    s.useCache && origin == Probed && w != Written
  }

  /** `clear_cache`, for one key or for all. */
  function Clear(s: State, target: Option<Key>, w: WriteEnd): State {
    var cleared := match target
      case Some(key) => s.(session := s.session - {key}, probes := s.probes - {key})
      case None => s.(session := map[], probes := map[]);
    if s.useCache then cleared.(disk := WriteProbes(s.disk, cleared.probes, w)) else cleared
  }

  /** A new probe object over a cache file. */
  function Start(useCache: bool, disk: map<Key, Facts>): State {
    State(useCache, map[], if useCache then disk else map[], disk)
  }

  // ---- What one check does ----

  /** A result is valid while it is less than an hour old if it is a success, less than 24 hours if the
      model is denied or unavailable, and less than five minutes after any other error; without a time that
      can be read it never is. */
  predicate Recent(facts: Facts, now: int) {
    && facts.probeTime.Some?
    && var age := now - facts.probeTime.value;
       match facts.errorCode
       case None => age < 3_600_000_000
       case Some(code) =>
         if code == "success" then age < 3_600_000_000
         else if code in {"permission_denied", "unavailable_model"} then age < 86_400_000_000
         else age < 300_000_000
  }

  /** What a check returns and what it leaves: the session's own result; else, unless it is forced, a recent
      one from the file, which the session takes over; else the probe's, which goes to the session and, if
      the file is in use, to the file, as far as the write gets. */
  lemma {:induction false} CheckMeans(s: State, key: Key, force: bool, now: int, found: Facts, w: WriteEnd)
    ensures var (r, facts, origin) := Check(s, key, force, now, found, w);
            var held := !force && key in s.session;
            var filed := !force && !held && s.useCache && key in s.probes && Recent(s.probes[key], now);
            && (held ==> origin == FromSession && facts == s.session[key] && r == s)
            && (filed ==> origin == FromFile && facts == s.probes[key] && r == s.(session := s.session[key := facts]))
            && (!held && !filed ==>
                  && origin == Probed && facts == found && r.session == s.session[key := found]
                  && r.useCache == s.useCache
                  && r.probes == (if s.useCache then s.probes[key := found] else s.probes)
                  && r.disk == (if !s.useCache || w == NotOpened then s.disk
                                else if w == CutShort then map[] else s.probes[key := found]))
  {
  }

  /** A result that is valid at some time was valid at every earlier time. */
  lemma {:induction false} ValidUntil(facts: Facts, now: int, later: int)
    requires now <= later
    ensures IsValid(facts, later) ==> IsValid(facts, now)
    ensures IsValid(facts, now) <==> Recent(facts, now)
  {
  }

  // ---- Runs ----

  datatype Event =
    | CheckEvent(key: Key, force: bool, now: int, found: Facts, w: WriteEnd)
    | ClearEvent(target: Option<Key>, w: WriteEnd)
    | RestartEvent(useCache: bool)

  function Step(s: State, e: Event): State {
    match e
    case CheckEvent(key, force, now, found, w) => Check(s, key, force, now, found, w).0
    case ClearEvent(target, w) => Clear(s, target, w)
    case RestartEvent(useCache) => Start(useCache, s.disk)
  }

  function Run(s: State, es: seq<Event>): State {
    if es == [] then s else Step(Run(s, es[..|es| - 1]), es[|es| - 1])
  }

  /** What has been done in a run, with the results and with how the file writes ended. */
  datatype Done =
    | Checked(key: Key, facts: Facts, origin: Origin, w: WriteEnd)
    | Cleared(target: Option<Key>, w: WriteEnd)
    | Restarted(useCache: bool)

  function Seen(s: State, e: Event): Done {
    match e
    case CheckEvent(key, force, now, found, w) =>
      var (_, facts, origin) := Check(s, key, force, now, found, w);
      Checked(key, facts, origin, w)
    case ClearEvent(target, w) => Cleared(target, w)
    case RestartEvent(useCache) => Restarted(useCache)
  }

  function History(s: State, es: seq<Event>): (h: seq<Done>)
    ensures |h| == |es|
  {
    if es == [] then [] else History(s, es[..|es| - 1]) + [Seen(Run(s, es[..|es| - 1]), es[|es| - 1])]
  }

  predicate Covers(target: Option<Key>, key: Key) {
    target.None? || target.value == key
  }

  /** The result of the key's last check in this session that has not been cleared since. */
  function LastHeld(h: seq<Done>, key: Key): Option<Facts> {
    if h == [] then None
    else
      var before := LastHeld(h[..|h| - 1], key);
      match h[|h| - 1]
      case Checked(k, facts, _, _) => if k == key then Some(facts) else before
      case Cleared(target, _) => if Covers(target, key) then None else before
      case Restarted(_) => None
  }

  function CachingAfter(first: bool, h: seq<Done>): bool {
    if h == [] then first
    else match h[|h| - 1]
      case Restarted(useCache) => useCache
      case _ => CachingAfter(first, h[..|h| - 1])
  }

  /** The key's last probe known to the session that keeps the file: made in it, or loaded from the file. */
  function Known(first: bool, disk: map<Key, Facts>, h: seq<Done>, key: Key): Option<Facts>
    decreases |h|, 0
  {
    if h == [] then (if first then Lookup(disk, key) else None)
    else
      var init := h[..|h| - 1];
      match h[|h| - 1]
      case Checked(k, facts, origin, _) =>
        if CachingAfter(first, init) && k == key && origin == Probed then Some(facts) else Known(first, disk, init, key)
      case Cleared(target, _) => if Covers(target, key) then None else Known(first, disk, init, key)
      case Restarted(useCache) => if useCache then Filed(first, disk, init, key) else None
  }

  /** The result that the file holds for the key: what was known at the last write that reached the disk,
      nothing after a write that was cut short. */
  function Filed(first: bool, disk: map<Key, Facts>, h: seq<Done>, key: Key): Option<Facts>
    decreases |h|, 1
  {
    if h == [] then Lookup(disk, key)
    else
      var init := h[..|h| - 1];
      var before := Filed(first, disk, init, key);
      if !CachingAfter(first, init) then before
      else match h[|h| - 1]
        case Checked(_, _, origin, w) =>
          if origin == Probed then AfterWrite(before, Known(first, disk, h, key), w) else before
        case Cleared(_, w) => AfterWrite(before, Known(first, disk, h, key), w)
        case Restarted(_) => before
  }

  function AfterWrite(before: Option<Facts>, written: Option<Facts>, w: WriteEnd): Option<Facts> {
    if ReachesDisk(w) then written else if w == CutShort then None else before
  }

  /** The result of the key's last probe, over all sessions that keep the file, not cleared by one. */
  function LastProbed(first: bool, disk: map<Key, Facts>, h: seq<Done>, key: Key): Option<Facts> {
    if h == [] then Lookup(disk, key)
    else
      var init := h[..|h| - 1];
      var before := LastProbed(first, disk, init, key);
      if !CachingAfter(first, init) then before
      else match h[|h| - 1]
        case Checked(k, facts, origin, _) => if k == key && origin == Probed then Some(facts) else before
        case Cleared(target, _) => if Covers(target, key) then None else before
        case Restarted(_) => before
  }

  function Lookup(m: map<Key, Facts>, key: Key): Option<Facts> {
    if key in m then Some(m[key]) else None
  }

  /** The carried invariant: the session map, the file and the copy of the file in memory are what the
      history says. */
  predicate Recalls(s: State, first: bool, disk: map<Key, Facts>, h: seq<Done>, key: Key) {
    && s.useCache == CachingAfter(first, h)
    && Lookup(s.session, key) == LastHeld(h, key)
    && Lookup(s.probes, key) == Known(first, disk, h, key)
    && Lookup(s.disk, key) == Filed(first, disk, h, key)
  }

  lemma {:induction false} CheckRecalls(s: State, key: Key, k: Key, force: bool, now: int, found: Facts, w: WriteEnd)
    ensures var (r, facts, origin) := Check(s, k, force, now, found, w);
            && r.useCache == s.useCache
            && Lookup(r.session, key) == (if k == key then Some(facts) else Lookup(s.session, key))
            && Lookup(r.probes, key)
               == (if s.useCache && k == key && origin == Probed then Some(facts) else Lookup(s.probes, key))
            && Lookup(r.disk, key)
               == (if s.useCache && origin == Probed then AfterWrite(Lookup(s.disk, key), Lookup(r.probes, key), w)
                   else Lookup(s.disk, key))
  {
  }

  lemma {:induction false} ClearRecalls(s: State, key: Key, target: Option<Key>, w: WriteEnd)
    ensures var r := Clear(s, target, w);
            && r.useCache == s.useCache
            && Lookup(r.session, key) == (if Covers(target, key) then None else Lookup(s.session, key))
            && Lookup(r.probes, key) == (if Covers(target, key) then None else Lookup(s.probes, key))
            && Lookup(r.disk, key)
               == (if s.useCache then AfterWrite(Lookup(s.disk, key), Lookup(r.probes, key), w)
                   else Lookup(s.disk, key))
  {
  }

  lemma {:induction false} StepRecalls(s: State, first: bool, disk: map<Key, Facts>, h: seq<Done>, key: Key, e: Event)
    requires Recalls(s, first, disk, h, key)
    ensures Recalls(Step(s, e), first, disk, h + [Seen(s, e)], key)
  {
    var after := h + [Seen(s, e)];
    assert after[..|h|] == h && after[|h|] == Seen(s, e);
    match e
    case CheckEvent(k, force, now, found, w) => CheckRecalls(s, key, k, force, now, found, w);
    case ClearEvent(target, w) => ClearRecalls(s, key, target, w);
    case RestartEvent(useCache) =>
  }

  lemma {:induction false} RunRecalls(useCache: bool, disk: map<Key, Facts>, es: seq<Event>, key: Key)
    ensures var s := Start(useCache, disk); Recalls(Run(s, es), useCache, disk, History(s, es), key)
  {
    var s := Start(useCache, disk);
    if es != [] {
      RunRecalls(useCache, disk, es[..|es| - 1], key);
      StepRecalls(Run(s, es[..|es| - 1]), useCache, disk, History(s, es[..|es| - 1]), key, es[|es| - 1]);
    }
  }

  /** After any run, with forcing, clearing, restarts and failing writes, an unforced check returns what
      the session holds for the key; failing that, the last probe it knows of if the file is in use and
      the result is younger than its time limit; and only failing that does it probe. */
  lemma {:induction false} CheckFollowsHistory(useCache: bool, disk: map<Key, Facts>, es: seq<Event>, key: Key,
                                               now: int, found: Facts, w: WriteEnd)
    ensures var s := Start(useCache, disk);
            var h := History(s, es);
            var (_, facts, origin) := Check(Run(s, es), key, false, now, found, w);
            var held, known := LastHeld(h, key), Known(useCache, disk, h, key);
            (facts, origin)
            == if held.Some? then (held.value, FromSession)
               else if CachingAfter(useCache, h) && known.Some? && IsValid(known.value, now) then
                 (known.value, FromFile)
               else (found, Probed)
  {
    RunRecalls(useCache, disk, es, key);
  }

  /** Every write of the file succeeds. */
  predicate AllWritten(h: seq<Done>) {
    forall d | d in h :: d.Restarted? || d.w == Written
  }

  /** When all writes succeed, what a session knows is the result of the key's last probe over all
      sessions that keep the file, and so is what the file holds. */
  lemma {:induction false} KnownIsLastProbed(first: bool, disk: map<Key, Facts>, h: seq<Done>, key: Key)
    requires AllWritten(h)
    ensures Filed(first, disk, h, key) == LastProbed(first, disk, h, key)
    ensures CachingAfter(first, h) ==> Known(first, disk, h, key) == LastProbed(first, disk, h, key)
  {
    if h != [] {
      assert h[|h| - 1] in h && forall d | d in h[..|h| - 1] :: d in h;
      KnownIsLastProbed(first, disk, h[..|h| - 1], key);
    }
  }

  /** A write that is cut short costs all that the file held: a session that starts from it probes for
      every key. */
  lemma {:induction false} CutShortForgets(s: State, key: Key, now: int, found: Facts, k: Key, later: int, again: Facts,
                                           w: WriteEnd)
    requires s.useCache
    ensures Check(Start(true, Check(s, key, true, now, found, CutShort).0.disk), k, false, later, again, w).2 == Probed
  {
  }

  // ---- One session without forcing and clearing ----

  predicate Plain(e: Event) {
    e.CheckEvent? && !e.force
  }

  lemma {:induction false} SessionKeeps(s: State, es: seq<Event>, key: Key)
    requires (forall e | e in es :: Plain(e)) && key in s.session
    ensures key in Run(s, es).session && Run(s, es).session[key] == s.session[key]
  {
    if es != [] {
      assert es[|es| - 1] in es && forall e | e in es[..|es| - 1] :: e in es;
      SessionKeeps(s, es[..|es| - 1], key);
    }
  }

  lemma {:induction false} RunSplit(s: State, es: seq<Event>, i: nat)
    requires i <= |es|
    ensures Run(s, es) == Run(Run(s, es[..i]), es[i..])
  {
    if i == |es| {
      assert es[..i] == es && es[i..] == [];
    } else {
      var init := es[..|es| - 1];
      assert init[..i] == es[..i] && init[i..] == es[i..][..|es[i..]| - 1];
      RunSplit(s, init, i);
    }
  }

  lemma {:induction false} HistoryAt(s: State, es: seq<Event>, i: nat)
    requires i < |es|
    ensures History(s, es)[i] == Seen(Run(s, es[..i]), es[i])
  {
    var init := es[..|es| - 1];
    if i < |init| {
      HistoryAt(s, init, i);
      assert init[..i] == es[..i];
    }
  }

  /** Without forcing and clearing a session probes each key at most once, and every later check of
      the key has the same result, however much time passes: the time limits bind the file alone. */
  lemma {:induction false} SessionProbesOnce(s: State, es: seq<Event>, i: nat, j: nat)
    requires i < j < |es| && (forall e | e in es :: Plain(e))
    requires es[i].CheckEvent? && es[j].CheckEvent? && es[i].key == es[j].key
    ensures var h := History(s, es);
            h[i].Checked? && h[j] == Checked(es[i].key, h[i].facts, FromSession, es[j].w)
  {
    HistoryAt(s, es, i);
    HistoryAt(s, es, j);
    var key := es[i].key;
    assert Plain(es[i]) && Plain(es[j]);
    var before, between := es[..j], es[..j][i + 1..];
    RunSplit(s, before, i + 1);
    assert before[..i + 1][..i] == es[..i] && before[..i + 1][i] == es[i];
    assert Run(s, before[..i + 1]) == Step(Run(s, es[..i]), es[i]);
    forall e | e in between ensures Plain(e) { assert e in es; }
    SessionKeeps(Run(s, before[..i + 1]), between, key);
  }

  // ---- Filtering and reporting ----

  /** The time, the probe's answer and the end of the file write that the i-th check of a loop would meet. */
  datatype Reading = Reading(now: int, found: Facts, w: WriteEnd)

  type World = nat -> Reading

  /** The i-th check of a loop over `keys`, from the state `s`. */
  function CheckIn(s: State, keys: seq<Key>, i: nat, force: bool, world: World): (State, Facts, Origin)
    requires i < |keys|
  {
    Check(s, keys[i], force, world(i).now, world(i).found, world(i).w)
  }

  /** After the first `n` checks of the loop. */
  function StateAt(s: State, keys: seq<Key>, n: nat, force: bool, world: World): State
    requires n <= |keys|
  {
    if n == 0 then s else CheckIn(StateAt(s, keys, n - 1, force, world), keys, n - 1, force, world).0
  }

  function FactsAt(s: State, keys: seq<Key>, i: nat, force: bool, world: World): Facts
    requires i < |keys|
  {
    CheckIn(StateAt(s, keys, i, force, world), keys, i, force, world).1
  }

  predicate RaisesAt(s: State, keys: seq<Key>, i: nat, force: bool, world: World)
    requires i < |keys|
  {
    var before := StateAt(s, keys, i, force, world);
    Raises(before, CheckIn(before, keys, i, force, world).2, world(i).w)
  }

  /** How the i-th check carries the loop on. */
  lemma {:induction false} NextCheck(s: State, keys: seq<Key>, i: nat, force: bool, world: World)
    requires i < |keys|
    ensures var before := StateAt(s, keys, i, force, world);
            var (after, facts, origin) := CheckIn(before, keys, i, force, world);
            && StateAt(s, keys, i + 1, force, world) == after
            && AllFacts(s, keys, i + 1, force, world) == AllFacts(s, keys, i, force, world) + [facts]
            && (RaisesAt(s, keys, i, force, world) <==> Raises(before, origin, world(i).w))
  {
  }

  /** The first check at or after the i-th whose file write fails, or the number of all checks. */
  function FirstRaise(s: State, keys: seq<Key>, i: nat, force: bool, world: World): (r: nat)
    requires i <= |keys|
    ensures i <= r <= |keys| && (r < |keys| ==> RaisesAt(s, keys, r, force, world))
    ensures forall j | i <= j < r :: !RaisesAt(s, keys, j, force, world)
    decreases |keys| - i
  {
    if i == |keys| || RaisesAt(s, keys, i, force, world) then i else FirstRaise(s, keys, i + 1, force, world)
  }

  /** The results of the first `n` checks of the loop. */
  function AllFacts(s: State, keys: seq<Key>, n: nat, force: bool, world: World): (r: seq<Facts>)
    requires n <= |keys|
    ensures |r| == n
  {
    if n == 0 then [] else AllFacts(s, keys, n - 1, force, world) + [FactsAt(s, keys, n - 1, force, world)]
  }

  lemma {:induction false} FactsAmongAll(s: State, keys: seq<Key>, n: nat, force: bool, world: World, i: nat)
    requires i < n <= |keys|
    ensures AllFacts(s, keys, n, force, world)[i] == FactsAt(s, keys, i, force, world)
  {
    if i < n - 1 { FactsAmongAll(s, keys, n - 1, force, world, i); }
  }

  /** A whole loop: the state and the results after each number of checks, and where a write first fails. */
  datatype Loop = Loop(states: nat -> State, results: nat -> seq<Facts>, end: nat)

  predicate DescribesAt(loop: Loop, s: State, keys: seq<Key>, n: nat, force: bool, world: World)
    requires n <= |keys|
  {
    && loop.states(n) == StateAt(s, keys, n, force, world)
    && loop.results(n) == AllFacts(s, keys, n, force, world)
    && loop.end == FirstRaise(s, keys, 0, force, world)
  }

  predicate Describes(loop: Loop, s: State, keys: seq<Key>, force: bool, world: World) {
    forall n {:trigger DescribesAt(loop, s, keys, n, force, world)} | 0 <= n <= |keys| ::
      DescribesAt(loop, s, keys, n, force, world)
  }

  lemma {:induction false} LoopOver(s: State, keys: seq<Key>, force: bool, world: World) returns (loop: Loop)
    ensures Describes(loop, s, keys, force, world)
    ensures loop.states(0) == s && loop.results(0) == [] && loop.end <= |keys|
  {
    loop := Loop((n: nat) => if n <= |keys| then StateAt(s, keys, n, force, world) else s,
                 (n: nat) => if n <= |keys| then AllFacts(s, keys, n, force, world) else [],
                 FirstRaise(s, keys, 0, force, world));
  }

  /** Of the models that have a result, in order, those whose result is usable. */
  function Runnable(models: seq<string>, results: seq<Facts>): seq<string>
    requires |results| <= |models|
  {
    if results == [] then []
    else
      var n := |results| - 1;
      Runnable(models, results[..n]) + if results[n].usable then [models[n]] else []
  }

  /** The position of the last check of the i-th key among the first `n`. */
  function LastCheck(keys: seq<Key>, i: nat, n: nat): (j: nat)
    requires i < n <= |keys|
    ensures i <= j < n && keys[j] == keys[i]
    ensures forall m | j < m < n :: keys[m] != keys[i]
  {
    if keys[n - 1] == keys[i] then n - 1 else LastCheck(keys, i, n - 1)
  }

  lemma {:induction false} SessionHoldsLast(s: State, keys: seq<Key>, i: nat, n: nat, force: bool, world: World)
    requires i < n <= |keys|
    ensures Lookup(StateAt(s, keys, n, force, world).session, keys[i])
            == Some(FactsAt(s, keys, LastCheck(keys, i, n), force, world))
  {
    if keys[n - 1] != keys[i] {
      SessionHoldsLast(s, keys, i, n - 1, force, world);
    }
  }

  lemma {:induction false} UnforcedKeeps(s: State, keys: seq<Key>, m: nat, n: nat, world: World, key: Key)
    requires m <= n <= |keys| && key in StateAt(s, keys, m, false, world).session
    ensures Lookup(StateAt(s, keys, n, false, world).session, key)
            == Lookup(StateAt(s, keys, m, false, world).session, key)
  {
    if m < n { UnforcedKeeps(s, keys, m, n - 1, world, key); }
  }

  /** A report made after a loop of checks, forced or not and with any keys repeated, shows for each
      model the loop's last result for its key. */
  lemma {:induction false} ReportShowsLast(s: State, keys: seq<Key>, i: nat, force: bool, first: World, second: World)
    requires i < |keys|
    ensures FactsAt(StateAt(s, keys, |keys|, force, first), keys, i, false, second)
            == FactsAt(s, keys, LastCheck(keys, i, |keys|), force, first)
  {
    var t := StateAt(s, keys, |keys|, force, first);
    SessionHoldsLast(s, keys, i, |keys|, force, first);
    assert StateAt(t, keys, 0, false, second) == t;
    UnforcedKeeps(t, keys, 0, i, second, keys[i]);
  }

  /** Such a report takes every result from the session: it probes nothing, so no file write can fail it. */
  lemma {:induction false} ReportNeverRaises(s: State, keys: seq<Key>, force: bool, first: World, second: World)
    ensures FirstRaise(StateAt(s, keys, |keys|, force, first), keys, 0, false, second) == |keys|
  {
    var t := StateAt(s, keys, |keys|, force, first);
    forall i | 0 <= i < |keys| ensures !RaisesAt(t, keys, i, false, second) {
      SessionHoldsLast(s, keys, i, |keys|, force, first);
      assert StateAt(t, keys, 0, false, second) == t;
      UnforcedKeeps(t, keys, 0, i, second, keys[i]);
    }
  }

  ghost predicate Distinct(keys: seq<Key>) {
    forall i, j | 0 <= i < j < |keys| :: keys[i] != keys[j]
  }

  /** Filtering and then reporting agree: on any list when the filter does not force, and on a list
      without repeated keys when it does. */
  lemma {:induction false} ReportAgreesWithFilter(s: State, models: seq<string>, keys: seq<Key>, force: bool,
                                                  first: World, second: World)
    requires |models| == |keys| && (force ==> Distinct(keys))
    ensures var filtered := AllFacts(s, keys, |keys|, force, first);
            var reported := AllFacts(StateAt(s, keys, |keys|, force, first), keys, |keys|, false, second);
            filtered == reported && Runnable(models, filtered) == Runnable(models, reported)
  {
    var t := StateAt(s, keys, |keys|, force, first);
    forall i | 0 <= i < |keys|
      ensures AllFacts(t, keys, |keys|, false, second)[i] == AllFacts(s, keys, |keys|, force, first)[i]
    {
      FactsAmongAll(t, keys, |keys|, false, second, i);
      FactsAmongAll(s, keys, |keys|, force, first, i);
      SameFactsInReport(s, keys, i, force, first, second);
    }
  }

  lemma {:induction false} SameFactsInReport(s: State, keys: seq<Key>, i: nat, force: bool, first: World, second: World)
    requires i < |keys| && (force ==> Distinct(keys))
    ensures FactsAt(StateAt(s, keys, |keys|, force, first), keys, i, false, second) == FactsAt(s, keys, i, force, first)
  {
    ReportShowsLast(s, keys, i, force, first, second);
    if !force { FirstResultStays(s, keys, i, first); }
  }

  lemma {:induction false} FirstResultStays(s: State, keys: seq<Key>, i: nat, world: World)
    requires i < |keys|
    ensures FactsAt(s, keys, LastCheck(keys, i, |keys|), false, world) == FactsAt(s, keys, i, false, world)
  {
    SessionHoldsLast(s, keys, i, |keys|, false, world);
    assert Lookup(StateAt(s, keys, i + 1, false, world).session, keys[i]) == Some(FactsAt(s, keys, i, false, world));
    UnforcedKeeps(s, keys, i + 1, |keys|, world, keys[i]);
  }

  const UP := Facts("", "", true, None, None, false, None, 0)
  const DOWN := UP.(usable := false)

  /** A world in which a single probe, the i-th, finds its model usable. */
  function UpOnceAt(i: nat): World {
    (n: nat) => Reading(0, if n == i then UP else DOWN, Written)
  }

  lemma {:induction false} RunnableSome(models: seq<string>, results: seq<Facts>, i: nat)
    requires i < |results| <= |models| && results[i].usable
    ensures Runnable(models, results) != []
  {
    if i < |results| - 1 { RunnableSome(models, results[..|results| - 1], i); }
  }

  lemma {:induction false} RunnableNone(models: seq<string>, results: seq<Facts>)
    requires |results| <= |models| && forall i | 0 <= i < |results| :: !results[i].usable
    ensures Runnable(models, results) == []
  {
    if results != [] { RunnableNone(models, results[..|results| - 1]); }
  }

  /** Whenever a forced list repeats a key the report can contradict the filter: when only the earlier
      probe finds the model usable, the filter lists it and the report does not. */
  lemma {:induction false} ForcedRepeatsDisagree(s: State, models: seq<string>, keys: seq<Key>, i: nat, j: nat,
                                                 second: World)
    requires |models| == |keys| && i < j < |keys| && keys[i] == keys[j]
    ensures Runnable(models, AllFacts(s, keys, |keys|, true, UpOnceAt(i))) != []
    ensures Runnable(models, AllFacts(StateAt(s, keys, |keys|, true, UpOnceAt(i)), keys, |keys|, false, second)) == []
  {
    var first := UpOnceAt(i);
    var t := StateAt(s, keys, |keys|, true, first);
    FactsAmongAll(s, keys, |keys|, true, first, i);
    RunnableSome(models, AllFacts(s, keys, |keys|, true, first), i);
    var reported := AllFacts(t, keys, |keys|, false, second);
    forall k | 0 <= k < |keys| ensures !reported[k].usable {
      FactsAmongAll(t, keys, |keys|, false, second, k);
      ReportShowsLast(s, keys, k, true, first, second);
      assert LastCheck(keys, k, |keys|) != i;
    }
    RunnableNone(models, reported);
  }

  /** The report lists the same usable models as the forced filter before it. */
  predicate ListsAgree(s: State, models: seq<string>, keys: seq<Key>, first: World, second: World)
    requires |models| == |keys|
  {
    Runnable(models, AllFacts(s, keys, |keys|, true, first))
    == Runnable(models, AllFacts(StateAt(s, keys, |keys|, true, first), keys, |keys|, false, second))
  }

  /** Exactly when a forced filter and the report after it agree whatever the probes find: when no two
      of the models share a key. */
  lemma {:induction false} ForcedAgreesIffDistinct(s: State, models: seq<string>, keys: seq<Key>)
    requires |models| == |keys|
    ensures Distinct(keys) <==> forall first, second :: ListsAgree(s, models, keys, first, second)
  {
    if Distinct(keys) {
      forall first, second ensures ListsAgree(s, models, keys, first, second) {
        ReportAgreesWithFilter(s, models, keys, true, first, second);
      }
    } else {
      var i, j :| 0 <= i < j < |keys| && keys[i] == keys[j];
      ForcedRepeatsDisagree(s, models, keys, i, j, UpOnceAt(i));
      assert !ListsAgree(s, models, keys, UpOnceAt(i), UpOnceAt(i));
    }
  }

  // ---- Summary ----

  function ValidKeys(probes: map<Key, Facts>, now: int): set<Key> {
    set k | k in probes && IsValid(probes[k], now)
  }

  function UsableKeys(probes: map<Key, Facts>, now: int): set<Key> {
    set k | k in probes && IsValid(probes[k], now) && probes[k].usable
  }

  /** In a new session the keys that the summary counts as valid are exactly those that an unforced
      check answers without probing. */
  lemma {:induction false} ValidMeansNoProbe(disk: map<Key, Facts>, key: Key, now: int, found: Facts, w: WriteEnd)
    ensures key in ValidKeys(disk, now) <==> Check(Start(true, disk), key, false, now, found, w).2 != Probed
    ensures key in UsableKeys(disk, now)
            <==> key in ValidKeys(disk, now) && Check(Start(true, disk), key, false, now, found, w).1.usable
  {
  }
}
