/** The probe as an object: result objects that callers share, a session map and a cache file. */
module ModelProbe {
  import opened FileWrites
  import opened ProbeCache
  import opened Results

  /** A result object; the `cached` flag is the one field that changes. */
  class ProbeResult {
    const facts: Facts
    var cached: bool

    constructor (facts: Facts, cached: bool)
      ensures this.facts == facts && this.cached == cached
    {
      this.facts := facts;
      this.cached := cached;
    }
  }

  class CacheFile {
    var probes: map<Key, Facts>

    constructor ()
      ensures probes == map[]
    {
      probes := map[];
    }

    /** `save_cache`. A write that is cut short leaves what loads as an empty file. */
    method Save(probes: map<Key, Facts>, w: WriteEnd) returns (ok: bool)
      modifies this
      ensures this.probes == WriteProbes(old(this.probes), probes, w)
      ensures ok <==> w == Written
    {
      if w == NotOpened { return false; }
      this.probes := map[];
      if w == CutShort { return false; }
      this.probes := probes;
      ok := w == Written;
    }
  }

  datatype Unusable = Unusable(model: string, errorCode: Option<string>, errorMessage: Option<string>)

  datatype Report = Report(total: nat, usable: seq<string>, unusable: seq<Unusable>, details: map<string, Facts>)

  datatype Summary = Summary(total: nat, valid: nat, expired: nat, usable: nat, unusable: nat)

  ghost function FactsOf(session: map<Key, ProbeResult>): (r: map<Key, Facts>)
    ensures r.Keys == session.Keys && forall k | k in session :: r[k] == session[k].facts
  {
    map k | k in session :: session[k].facts
  }

  /** Of the models that have a result, in order, those whose result is not usable. */
  function Rejected(models: seq<string>, results: seq<Facts>): seq<Unusable>
    requires |results| <= |models|
  {
    if results == [] then []
    else
      var n := |results| - 1;
      Rejected(models, results[..n])
      + if results[n].usable then [] else [Unusable(models[n], results[n].errorCode, results[n].errorMessage)]
  }

  /** `details`: each model's result, the later one when a model is given twice. */
  function Details(models: seq<string>, results: seq<Facts>): map<string, Facts>
    requires |results| <= |models|
  {
    if results == [] then map[]
    else
      var n := |results| - 1;
      Details(models, results[..n])[models[n] := results[n]]
  }

  /** The report on the models that have a result. */
  function ReportOf(models: seq<string>, results: seq<Facts>): Report
    requires |results| <= |models|
  {
    Report(|results|, Runnable(models, results), Rejected(models, results), Details(models, results))
  }

  /** Every model is in one of the two lists, once for each time it was given. */
  lemma {:induction false} UsableAndUnusableAddUp(models: seq<string>, results: seq<Facts>)
    requires |results| <= |models|
    ensures |Runnable(models, results)| + |Rejected(models, results)| == |results|
  {
    if results != [] { UsableAndUnusableAddUp(models, results[..|results| - 1]); }
  }

  /** In one report the checks of the same key have the same result. */
  lemma {:induction false} RepeatedKeySameResult(s: State, keys: seq<Key>, j: nat, i: nat, world: World)
    requires j < i < |keys| && keys[j] == keys[i]
    ensures FactsAt(s, keys, j, false, world) == FactsAt(s, keys, i, false, world)
  {
    assert Lookup(StateAt(s, keys, j + 1, false, world).session, keys[j]) == Some(FactsAt(s, keys, j, false, world));
    UnforcedKeeps(s, keys, j + 1, i, world, keys[j]);
  }

  lemma {:induction false} DetailAt(models: seq<string>, results: seq<Facts>, j: nat)
    requires j < |results| <= |models|
    requires forall k | j < k < |results| && models[k] == models[j] :: results[k] == results[j]
    ensures models[j] in Details(models, results) && Details(models, results)[models[j]] == results[j]
  {
    var n := |results| - 1;
    if j < n { DetailAt(models, results[..n], j); }
  }

  lemma {:induction false} DetailIsGiven(models: seq<string>, results: seq<Facts>, m: string)
    requires |results| <= |models| && m in Details(models, results)
    ensures m in models
  {
    var n := |results| - 1;
    if m != models[n] { DetailIsGiven(models, results[..n], m); }
  }

  /** The details of a report name exactly the given models and show for every position the result of
      its check: a model given twice has the same result both times. */
  lemma {:induction false} DetailsShowEveryResult(s: State, models: seq<string>, keys: seq<Key>, world: World)
    requires |models| == |keys|
    requires forall j, k | 0 <= j < k < |keys| && models[j] == models[k] :: keys[j] == keys[k]
    ensures var details := Details(models, AllFacts(s, keys, |keys|, false, world));
            && details.Keys == (set m | m in models)
            && forall j | 0 <= j < |models| ::
                 models[j] in details && details[models[j]] == FactsAt(s, keys, j, false, world)
  {
    var results := AllFacts(s, keys, |keys|, false, world);
    forall j | 0 <= j < |models|
      ensures models[j] in Details(models, results)
      ensures Details(models, results)[models[j]] == FactsAt(s, keys, j, false, world)
    {
      FactsAmongAll(s, keys, |keys|, false, world, j);
      forall k | j < k < |models| && models[k] == models[j] ensures results[k] == results[j] {
        FactsAmongAll(s, keys, |keys|, false, world, k);
        RepeatedKeySameResult(s, keys, j, k, world);
      }
      DetailAt(models, results, j);
    }
    forall m | m in Details(models, results) ensures m in models {
      DetailIsGiven(models, results, m);
    }
  }

  lemma {:induction false} OneMoreRunnable(models: seq<string>, results: seq<Facts>, facts: Facts)
    requires |results| < |models|
    ensures Runnable(models, results + [facts])
            == Runnable(models, results) + (if facts.usable then [models[|results|]] else [])
  {
    assert (results + [facts])[..|results|] == results;
  }

  /** What one more result adds to a report. */
  lemma {:induction false} OneMoreResult(models: seq<string>, results: seq<Facts>, facts: Facts)
    requires |results| < |models|
    ensures var Report(total, usable, unusable, details) := ReportOf(models, results);
            var model := models[|results|];
            ReportOf(models, results + [facts])
            == if facts.usable then Report(total + 1, usable + [model], unusable, details[model := facts])
               else Report(total + 1, usable,
                           unusable + [Unusable(model, facts.errorCode, facts.errorMessage)], details[model := facts])
  {
    assert (results + [facts])[..|results|] == results;
  }

  lemma {:induction false} OneLessLeft(all: set<Key>, rest: set<Key>, key: Key)
    requires key in rest
    ensures |all - (rest - {key})| == |all - rest| + (if key in all then 1 else 0)
  {
    assert all - (rest - {key}) == all - rest + (if key in all then {key} else {});
  }

  lemma {:induction false} NoneLeft(all: set<Key>, rest: set<Key>)
    requires rest == {}
    ensures all - rest == all
  {
  }

  class ModelProbe {
    const useCache: bool
    const keyOf: string -> Key
    const file: CacheFile
    var session: map<Key, ProbeResult>
    var cache: map<Key, Facts>
    ghost var handedOut: set<ProbeResult>

    /** The session's objects are among those handed out to callers. */
    ghost predicate Valid()
      reads this
    {
      forall k | k in session :: session[k] in handedOut
    }

    ghost function Contents(): State
      reads this, file
    {
      State(useCache, FactsOf(session), cache, file.probes)
    }

    function KeysOf(models: seq<string>): (keys: seq<Key>)
      ensures |keys| == |models| && forall i | 0 <= i < |models| :: keys[i] == keyOf(models[i])
    {
      seq(|models|, i requires 0 <= i < |models| => keyOf(models[i]))
    }

    constructor (useCache: bool, keyOf: string -> Key, file: CacheFile)
      ensures this.useCache == useCache && this.keyOf == keyOf && this.file == file && session == map[]
      ensures Valid() && handedOut == {}
      ensures Contents() == Start(useCache, file.probes)
    {
      this.useCache := useCache;
      this.keyOf := keyOf;
      this.file := file;
      session, handedOut := map[], {};
      cache := if useCache then file.probes else map[];
    }

    /** Enters a result object into the session. */
    method Hold(key: Key, held: ProbeResult)
      modifies this`session, this`handedOut
      ensures session == old(session)[key := held] && handedOut == old(handedOut) + {held}
      ensures Contents() == old(Contents()).(session := old(Contents()).session[key := held.facts])
      ensures old(Valid()) ==> Valid()
    {
      ghost var before := FactsOf(session);
      session, handedOut := session[key := held], handedOut + {held};
      assert FactsOf(session) == before[key := held.facts];
    }

    /** The part of `check_model` that hands out the object of the session again. */
    method HandOutAgain(key: Key) returns (held: ProbeResult)
      requires key in session
      modifies this`handedOut, session[key]
      ensures held == session[key] && held.cached
      ensures Contents() == old(Contents()) && handedOut == old(handedOut) + {held}
      ensures old(Valid()) ==> Valid()
    {
      held := session[key];
      held.cached := true;
      handedOut := handedOut + {held};
    }

    /** The part of `check_model` that takes a result from the file. */
    method TakeCached(key: Key) returns (loaded: ProbeResult)
      requires key in cache
      modifies this`session, this`handedOut
      ensures Contents() == Load(old(Contents()), key) && loaded.facts == cache[key]
      ensures fresh(loaded) && loaded.cached
      ensures session == old(session)[key := loaded] && handedOut == old(handedOut) + {loaded}
      ensures old(Valid()) ==> Valid()
    {
      loaded := new ProbeResult(cache[key], false);
      loaded.cached := true;
      Hold(key, loaded);
    }

    /** The part of `check_model` that keeps the result of a probe; `ok` is false when it raises. */
    method KeepProbed(key: Key, found: Facts, w: WriteEnd) returns (probed: ProbeResult, ok: bool)
      modifies this, file
      ensures Contents() == Store(old(Contents()), key, found, w) && probed.facts == found
      ensures fresh(probed) && !probed.cached && (ok <==> !useCache || w == Written)
      ensures session == old(session)[key := probed] && handedOut == old(handedOut) + {probed}
      ensures old(Valid()) ==> Valid()
    {
      probed := new ProbeResult(found, false);
      Hold(key, probed);
      ok := true;
      if useCache {
        cache := cache[key := probed.facts];
        ok := file.Save(cache, w);
      }
    }

    /** Brings the session to hold the result that the specification gives, and returns it, unless the file
        write raises. An unforced check that finds the session's object hands out that object again and
        flags it as cached for everyone who holds it; any other check makes a new object, flagged when it
        comes from the file. No other result object changes. */
    method CheckModel(model: string, force: bool, now: int, found: Facts, w: WriteEnd)
      returns (result: Option<ProbeResult>)
      modifies this, file, if !force && keyOf(model) in session then {session[keyOf(model)]} else {}
      ensures var (after, facts, origin) := Check(old(Contents()), keyOf(model), force, now, found, w);
              && Contents() == after
              && (result.None? <==> Raises(old(Contents()), origin, w))
              && keyOf(model) in session
              && var held := session[keyOf(model)];
                 && held.facts == facts
                 && held.cached == (origin != Probed)
                 && (if origin == FromSession then held == old(session)[keyOf(model)] else fresh(held))
                 && session == old(session)[keyOf(model) := held]
                 && handedOut == old(handedOut) + {held}
                 && (result.Some? ==> result.value == held)
      ensures old(Valid()) ==> Valid()
    {
      var key := keyOf(model);
      if !force && key in session {
        var held := HandOutAgain(key);
        assert session == session[key := held];
        return Some(held);
      }
      if !force && useCache {
        if key in cache && IsValid(cache[key], now) {
          var loaded := TakeCached(key);
          return Some(loaded);
        }
      }
      var probed, ok := KeepProbed(key, found, w);
      result := if ok then Some(probed) else None;
    }

    /** A loop over the models that began in the state `start` has ended: after all of them, completed, or
        after the first check whose file write failed. */
    ghost predicate LoopEnds(start: State, models: seq<string>, force: bool, world: World, completed: bool)
      reads this, file
    {
      var end := FirstRaise(start, KeysOf(models), 0, force, world);
      && (completed <==> end == |models|)
      && Contents() == StateAt(start, KeysOf(models), if completed then end else end + 1, force, world)
    }

    /** The check of the i-th model of a loop. */
    method CheckIth(models: seq<string>, i: nat, force: bool, world: World) returns (facts: Option<Facts>)
      requires i < |models| && Valid()
      modifies this, file, handedOut
      ensures Valid() && fresh(handedOut - old(handedOut))
      ensures var (after, checked, origin) := CheckIn(old(Contents()), KeysOf(models), i, force, world);
              && Contents() == after
              && facts == if Raises(old(Contents()), origin, world(i).w) then None else Some(checked)
    {
      var Reading(now, found, w) := world(i);
      var result := CheckModel(models[i], force, now, found, w);
      facts := if result.Some? then Some(result.value.facts) else None;
    }

    /** The check that both loops below make of the next model. */
    method CheckNext(ghost loop: Loop, ghost start: State, models: seq<string>, i: nat, force: bool, world: World)
      returns (facts: Option<Facts>)
      requires Describes(loop, start, KeysOf(models), force, world) && i < |models| && i <= loop.end
      requires Valid() && Contents() == loop.states(i)
      modifies this, file, handedOut
      ensures Valid() && fresh(handedOut - old(handedOut))
      ensures facts.None? <==> i == loop.end
      ensures facts.None? ==> LoopEnds(start, models, force, world, false)
      ensures facts.Some? ==>
                && Contents() == loop.states(i + 1) && |loop.results(i)| == i
                && loop.results(i + 1) == loop.results(i) + [facts.value]
    {
      assert DescribesAt(loop, start, KeysOf(models), i, force, world);
      assert DescribesAt(loop, start, KeysOf(models), i + 1, force, world);
      NextCheck(start, KeysOf(models), i, force, world);
      facts := CheckIth(models, i, force, world);
      assert facts.None? <==> RaisesAt(start, KeysOf(models), i, force, world);
    }

    lemma {:induction false} FinishLoop(loop: Loop, start: State, models: seq<string>, force: bool, world: World)
      requires Describes(loop, start, KeysOf(models), force, world) && loop.end == |models|
      requires Contents() == loop.states(|models|)
      ensures LoopEnds(start, models, force, world, true)
      ensures loop.results(|models|) == AllFacts(start, KeysOf(models), |models|, force, world)
    {
      assert DescribesAt(loop, start, KeysOf(models), |models|, force, world);
    }

    /** `filter_runnable`; nothing is returned when a check raises. */
    method FilterRunnable(models: seq<string>, force: bool, world: World) returns (runnable: Option<seq<string>>)
      requires Valid()
      modifies this, file, handedOut
      ensures Valid() && fresh(handedOut - old(handedOut))
      ensures LoopEnds(old(Contents()), models, force, world, runnable.Some?)
      ensures runnable.Some? ==>
                runnable.value == Runnable(models, AllFacts(old(Contents()), KeysOf(models), |models|, force, world))
    {
      ghost var start := Contents();
      ghost var loop := LoopOver(start, KeysOf(models), force, world);
      var list: seq<string> := [];
      var i := 0;
      while i < |models|
        invariant i <= loop.end && |loop.results(i)| == i <= |models|
        invariant Valid() && Contents() == loop.states(i) && fresh(handedOut - old(handedOut))
        invariant list == Runnable(models, loop.results(i))
      {
        var checked := CheckNext(loop, start, models, i, force, world);
        if checked.None? { return None; }
        var facts := checked.value;
        OneMoreRunnable(models, loop.results(i), facts);
        if facts.usable {
          list := list + [models[i]];
        }
        i := i + 1;
      }
      FinishLoop(loop, start, models, force, world);
      runnable := Some(list);
    }

    /** `get_probe_report`; nothing is returned when a check raises. */
    method GetProbeReport(models: seq<string>, world: World) returns (report: Option<Report>)
      requires Valid()
      modifies this, file, handedOut
      ensures Valid() && fresh(handedOut - old(handedOut))
      ensures LoopEnds(old(Contents()), models, false, world, report.Some?)
      ensures report.Some? ==>
                report.value == ReportOf(models, AllFacts(old(Contents()), KeysOf(models), |models|, false, world))
    {
      ghost var start := Contents();
      ghost var loop := LoopOver(start, KeysOf(models), false, world);
      var usable: seq<string>, unusable: seq<Unusable>, details: map<string, Facts> := [], [], map[];
      var i := 0;
      while i < |models|
        invariant i <= loop.end && |loop.results(i)| == i <= |models|
        invariant Valid() && Contents() == loop.states(i) && fresh(handedOut - old(handedOut))
        invariant Report(i, usable, unusable, details) == ReportOf(models, loop.results(i))
      {
        var checked := CheckNext(loop, start, models, i, false, world);
        if checked.None? { return None; }
        var facts := checked.value;
        OneMoreResult(models, loop.results(i), facts);
        details := details[models[i] := facts];
        if facts.usable {
          usable := usable + [models[i]];
        } else {
          unusable := unusable + [Unusable(models[i], facts.errorCode, facts.errorMessage)];
        }
        i := i + 1;
      }
      FinishLoop(loop, start, models, false, world);
      report := Some(Report(|models|, usable, unusable, details));
    }

    /** `clear_cache`: an empty model name clears everything, as a missing one does. The call raises when
        the file cannot be written. */
    method ClearCache(model: Option<string>, w: WriteEnd) returns (ok: bool)
      requires Valid()
      modifies this`session, this`cache, file
      ensures Valid() && (ok <==> !useCache || w == Written)
      ensures Contents() == Clear(old(Contents()),
                                  if model.Some? && model.value != "" then Some(keyOf(model.value)) else None, w)
    {
      ghost var before := Contents();
      if model.Some? && model.value != "" {
        session := session - {keyOf(model.value)};
        cache := cache - {keyOf(model.value)};
        assert FactsOf(session) == before.session - {keyOf(model.value)};
      } else {
        session := map[];
        cache := map[];
      }
      ok := true;
      if useCache {
        ok := file.Save(cache, w);
      }
    }

    /** `get_cache_summary`: the counts are those of the valid and the usable keys. */
    method GetCacheSummary(now: int) returns (summary: Summary)
      ensures summary.total == |cache|
      ensures summary.valid == |ValidKeys(cache, now)| && summary.usable == |UsableKeys(cache, now)|
      ensures summary.valid + summary.expired == summary.total && summary.usable + summary.unusable == summary.valid
    {
      var valid, expired, usable, unusable := 0, 0, 0, 0;
      var rest := cache.Keys;
      ghost var all, good, working := cache.Keys, ValidKeys(cache, now), UsableKeys(cache, now);
      assert good - rest == {} && working - rest == {};
      while rest != {}
        invariant rest <= all
        invariant valid == |good - rest| && usable == |working - rest|
        invariant valid + expired == |all - rest| && usable + unusable == valid
        decreases rest
      {
        var key :| key in rest;
        var facts := cache[key];
        OneLessLeft(all, rest, key);
        OneLessLeft(good, rest, key);
        OneLessLeft(working, rest, key);
        if IsValid(facts, now) {
          valid := valid + 1;
          if facts.usable {
            usable := usable + 1;
          } else {
            unusable := unusable + 1;
          }
        } else {
          expired := expired + 1;
        }
        rest := rest - {key};
      }
      NoneLeft(all, rest);
      NoneLeft(good, rest);
      NoneLeft(working, rest);
      summary := Summary(|cache|, valid, expired, usable, unusable);
    }
  }
}
