/** Circuit-breaker counters that many workers persist to one shared key by compare-and-swap. */
module CasProtocol {

  const CAS_MAX_RETRIES: nat := 8

  datatype Field = Success | Failure | RateLimit | Timeout

  /** The monotonic counters of a model. */
  datatype Counters = Counters(success: nat, failure: nat, rateLimit: nat, timeout: nat) {
    function Of(f: Field): nat {
      match f
      case Success => success
      case Failure => failure
      case RateLimit => rateLimit
      case Timeout => timeout
    }

    predicate AtMost(other: Counters) {
      success <= other.success && failure <= other.failure && rateLimit <= other.rateLimit && timeout <= other.timeout
    }
  }

  const ZERO := Counters(0, 0, 0, 0)

  /** What the key holds: nothing, text that is not JSON, or the serialized counters together
      with the non-counter fields. */
  datatype Stored = Absent | Corrupt(text: string) | Stats(counters: Counters, rest: int)

  function Counted(stored: Stored): Counters {
    if stored.Stats? then stored.counters else ZERO
  }

  function Add(base: Counters, local: Counters, baseline: Counters): Counters {
    Counters(base.success + Delta(local.success, baseline.success),
             base.failure + Delta(local.failure, baseline.failure),
             base.rateLimit + Delta(local.rateLimit, baseline.rateLimit),
             base.timeout + Delta(local.timeout, baseline.timeout))
  }

  /** `max(0, local - baseline)` */
  function Delta(local: nat, baseline: nat): nat {
    if local >= baseline then local - baseline else 0
  }

  /** `_merge_stats_dicts`: the worker's own fields, its counter deltas on top of the stored counts. */
  function Merge(current: Stored, local: Counters, rest: int, baseline: Counters): Stored {
    Stats(Add(Counted(current), local, baseline), rest)
  }

  /** The Lua script's test. An expected empty string stands for a missing key. */
  predicate Matches(current: Stored, expected: Stored) {
    if expected == Absent || expected == Corrupt("") then current == Absent else current == expected
  }

  datatype Phase =
    | Idle
    | Reading(snapshot: Counters, rest: int, attempt: nat)
    | Writing(snapshot: Counters, rest: int, attempt: nat, expected: Stored, readAt: nat)

  /** One router with its store. `wins`, `losses` and `gaveUp` count its successful swaps, lost
      swaps and saves abandoned after the last retry. */
  datatype Worker = Worker(local: Counters, baseline: Counters, phase: Phase, wins: nat, losses: nat, gaveUp: nat)

  /** The shared key and the workers; `version` counts the successful swaps. */
  datatype System = System(stored: Stored, version: nat, workers: seq<Worker>)

  datatype Event =
    | Record(i: nat, f: Field)    // a counter of worker i goes up
    | Begin(i: nat, rest: int)    // worker i starts a save; `rest` are its non-counter fields
    | Read(i: nat)                // worker i reads the key
    | Swap(i: nat)                // worker i attempts its compare-and-swap
    | Join(i: nat, own: Counters) // a new router becomes worker i; `own` are the counts from its stats file

  function Bump(c: Counters, f: Field): Counters {
    match f
    case Success => c.(success := c.success + 1)
    case Failure => c.(failure := c.failure + 1)
    case RateLimit => c.(rateLimit := c.rateLimit + 1)
    case Timeout => c.(timeout := c.timeout + 1)
  }

  /** The worker after a successful swap. */
  function Won(w: Worker): Worker
    requires w.phase.Writing?
  {
    w.(baseline := w.phase.snapshot, phase := Idle, wins := w.wins + 1)
  }

  /** The worker after a lost swap: it reads again, or gives up after its last attempt. */
  function Lost(w: Worker): Worker
    requires w.phase.Writing?
  {
    var Writing(snapshot, rest, attempt, _, _) := w.phase;
    if attempt + 1 < CAS_MAX_RETRIES then
      w.(phase := Reading(snapshot, rest, attempt + 1), losses := w.losses + 1)
    else
      w.(phase := Idle, losses := w.losses + 1, gaveUp := w.gaveUp + 1)
  }

  /** `create_with_redis`: a router that finds counts under the key takes them over, in place of its own,
      as its counters and as its baseline; otherwise all it has is still to be persisted. */
  function Joined(stored: Stored, own: Counters): Worker {
    if stored.Stats? then Worker(stored.counters, stored.counters, Idle, 0, 0, 0) else Worker(own, ZERO, Idle, 0, 0, 0)
  }

  /** One step of one worker; a step that its phase does not allow changes nothing. */
  function Step(s: System, e: Event): System {
    if e.Join? then
      if e.i == |s.workers| then s.(workers := s.workers + [Joined(s.stored, e.own)]) else s
    else if e.i >= |s.workers| then s
    else
      var w := s.workers[e.i];
      match e
      case Record(i, f) => s.(workers := s.workers[i := w.(local := Bump(w.local, f))])
      case Begin(i, rest) =>
        if w.phase.Idle? then s.(workers := s.workers[i := w.(phase := Reading(w.local, rest, 0))]) else s
      case Read(i) =>
        if w.phase.Reading? then
          s.(workers := s.workers[i := w.(phase :=
            Writing(w.phase.snapshot, w.phase.rest, w.phase.attempt, s.stored, s.version))])
        else s
      case Swap(i) =>
        if !w.phase.Writing? then s
        else if Matches(s.stored, w.phase.expected) then
          System(Merge(w.phase.expected, w.phase.snapshot, w.phase.rest, w.baseline), s.version + 1,
                 s.workers[i := Won(w)])
        else s.(workers := s.workers[i := Lost(w)])
  }

  function Run(s: System, es: seq<Event>): System {
    if es == [] then s else Step(Run(s, es[..|es| - 1]), es[|es| - 1])
  }

  // ---- Sums over the workers ----

  function Sum(ws: seq<Worker>, measure: Worker -> nat): nat {
    if ws == [] then 0 else Sum(ws[..|ws| - 1], measure) + measure(ws[|ws| - 1])
  }

  lemma {:induction false} SumUpdate(ws: seq<Worker>, measure: Worker -> nat, i: nat, w: Worker)
    requires i < |ws|
    ensures Sum(ws[i := w], measure) + measure(ws[i]) == Sum(ws, measure) + measure(w)
  {
    var init := ws[..|ws| - 1];
    if i == |ws| - 1 {
      assert ws[i := w][..|ws| - 1] == init;
    } else {
      assert ws[i := w][..|ws| - 1] == init[i := w];
      SumUpdate(init, measure, i, w);
    }
  }

  // ---- Conservation ----

  function Persisted(f: Field): Worker -> nat {
    (w: Worker) => w.baseline.Of(f)
  }

  function Recorded(f: Field): Worker -> nat {
    (w: Worker) => w.local.Of(f)
  }

  /** What a worker has recorded but not yet persisted. */
  function Pending(f: Field): Worker -> nat {
    (w: Worker) => Delta(w.local.Of(f), w.baseline.Of(f))
  }

  predicate Ordered(w: Worker) {
    && w.baseline.AtMost(w.local)
    && (!w.phase.Idle? ==> w.baseline.AtMost(w.phase.snapshot) && w.phase.snapshot.AtMost(w.local))
  }

  ghost predicate AllOrdered(s: System) {
    forall w | w in s.workers :: Ordered(w)
  }

  /** The counts that a joining router takes over from the key. */
  function Seed(s: System, e: Event, f: Field): nat {
    if e.Join? && e.i == |s.workers| then (if s.stored.Stats? then s.stored.counters.Of(f) else 0) else 0
  }

  /** What a step brings to the count: a recorded outcome, or the counts of a joining router's own. */
  function Gain(s: System, e: Event, f: Field): nat {
    match e
    case Record(i, g) => if i < |s.workers| && g == f then 1 else 0
    case Join(i, own) => if i == |s.workers| then own.Of(f) else 0
    case _ => 0
  }

  /** What a step drops: the own counts of a router that joins when the key holds counts. */
  function Drop(s: System, e: Event, f: Field): nat {
    if e.Join? && e.i == |s.workers| && s.stored.Stats? then e.own.Of(f) else 0
  }

  /** All seeds of a run. */
  function Seeds(s: System, es: seq<Event>, f: Field): nat {
    if es == [] then 0 else Seeds(s, es[..|es| - 1], f) + Seed(Run(s, es[..|es| - 1]), es[|es| - 1], f)
  }

  /** All gains of a run. */
  function Gains(s: System, es: seq<Event>, f: Field): nat {
    if es == [] then 0 else Gains(s, es[..|es| - 1], f) + Gain(Run(s, es[..|es| - 1]), es[|es| - 1], f)
  }

  /** All that a run drops. */
  function Drops(s: System, es: seq<Event>, f: Field): nat {
    if es == [] then 0 else Drops(s, es[..|es| - 1], f) + Drop(Run(s, es[..|es| - 1]), es[|es| - 1], f)
  }

  lemma {:induction false} UpdateKeepsOrdered(ws: seq<Worker>, i: nat, w: Worker)
    requires i < |ws| && Ordered(w) && forall x | x in ws :: Ordered(x)
    ensures forall x | x in ws[i := w] :: Ordered(x)
  {
    assert forall x | x in ws[i := w] :: x == w || x in ws;
  }

  lemma {:induction false} SumAppend(ws: seq<Worker>, measure: Worker -> nat, w: Worker)
    ensures Sum(ws + [w], measure) == Sum(ws, measure) + measure(w)
  {
    assert (ws + [w])[..|ws|] == ws;
  }

  /** What a step from `s` to `r` keeps, for any workers in any phase. */
  ghost predicate Conserves(s: System, r: System, gain: nat, seed: nat, drop: nat, f: Field) {
    && AllOrdered(r)
    && Counted(r.stored).Of(f) + Sum(s.workers, Persisted(f)) + seed
       == Counted(s.stored).Of(f) + Sum(r.workers, Persisted(f))
    && Sum(r.workers, Recorded(f)) + drop == Sum(s.workers, Recorded(f)) + gain + seed
  }

  lemma {:induction false} JoinConserves(s: System, r: System, w: Worker, gain: nat, seed: nat, drop: nat, f: Field)
    requires AllOrdered(s) && Ordered(w) && r == s.(workers := s.workers + [w])
    requires w.baseline.Of(f) == seed && w.local.Of(f) + drop == gain + seed
    ensures Conserves(s, r, gain, seed, drop, f)
  {
    SumAppend(s.workers, Persisted(f), w);
    SumAppend(s.workers, Recorded(f), w);
  }

  lemma {:induction false} WorkerConserves(s: System, r: System, i: nat, w: Worker, gain: nat, f: Field)
    requires AllOrdered(s) && Ordered(w) && i < |s.workers| && r.workers == s.workers[i := w]
    requires Counted(r.stored).Of(f) + s.workers[i].baseline.Of(f) == Counted(s.stored).Of(f) + w.baseline.Of(f)
    requires w.local.Of(f) == s.workers[i].local.Of(f) + gain
    ensures Conserves(s, r, gain, 0, 0, f)
  {
    UpdateKeepsOrdered(s.workers, i, w);
    SumUpdate(s.workers, Persisted(f), i, w);
    SumUpdate(s.workers, Recorded(f), i, w);
  }

  /** What a step of worker i does to the worker and to the key. */
  lemma {:induction false} StepOfOne(s: System, e: Event, f: Field)
    requires !e.Join? && e.i < |s.workers| && Ordered(s.workers[e.i])
    ensures var r := Step(s, e);
            var w, x := s.workers[e.i], r.workers[e.i];
            && r.workers == s.workers[e.i := x] && Ordered(x)
            && Counted(r.stored).Of(f) + w.baseline.Of(f) == Counted(s.stored).Of(f) + x.baseline.Of(f)
            && x.local.Of(f) == w.local.Of(f) + Gain(s, e, f)
  {
    if e.Swap? && s.workers[e.i].phase.Writing? { SwapOfOne(s, e.i, f); }
  }

  lemma {:induction false} SwapOfOne(s: System, i: nat, f: Field)
    requires i < |s.workers| && Ordered(s.workers[i]) && s.workers[i].phase.Writing?
    ensures var r := Step(s, Swap(i));
            var w, x := s.workers[i], r.workers[i];
            && r.workers == s.workers[i := x] && Ordered(x)
            && Counted(r.stored).Of(f) + w.baseline.Of(f) == Counted(s.stored).Of(f) + x.baseline.Of(f)
            && x.local == w.local
  {
    var w := s.workers[i];
    if Matches(s.stored, w.phase.expected) {
      assert Counted(w.phase.expected) == Counted(s.stored);
      MergeAddsDelta(w.phase.expected, w.phase.snapshot, w.phase.rest, w.baseline, f);
    }
  }

  lemma {:induction false} StepConserves(s: System, e: Event, f: Field)
    requires AllOrdered(s)
    ensures Conserves(s, Step(s, e), Gain(s, e, f), Seed(s, e, f), Drop(s, e, f), f)
  {
    var r := Step(s, e);
    if e.Join? {
      if e.i == |s.workers| {
        JoinConserves(s, r, Joined(s.stored, e.own), Gain(s, e, f), Seed(s, e, f), Drop(s, e, f), f);
      }
    } else if e.i < |s.workers| {
      assert s.workers[e.i] in s.workers;
      StepOfOne(s, e, f);
      WorkerConserves(s, r, e.i, r.workers[e.i], Gain(s, e, f), f);
    }
  }

  /** In every interleaving of any workers that record and save as often as they like, wherever their
      baselines stand, and of routers that join: the stored count grows by exactly what the workers'
      baselines grow by, not counting the baselines that joining routers start from. */
  lemma {:induction false} RunConserves(s: System, es: seq<Event>, f: Field)
    requires AllOrdered(s)
    ensures var r := Run(s, es);
            && AllOrdered(r)
            && Counted(r.stored).Of(f) + Sum(s.workers, Persisted(f)) + Seeds(s, es, f)
               == Counted(s.stored).Of(f) + Sum(r.workers, Persisted(f))
            && Sum(r.workers, Recorded(f)) + Drops(s, es, f)
               == Sum(s.workers, Recorded(f)) + Gains(s, es, f) + Seeds(s, es, f)
  {
    if es != [] {
      RunConserves(s, es[..|es| - 1], f);
      StepConserves(Run(s, es[..|es| - 1]), es[|es| - 1], f);
    }
  }

  lemma {:induction false} SumSplits(ws: seq<Worker>, f: Field)
    requires forall w | w in ws :: Ordered(w)
    ensures Sum(ws, Recorded(f)) == Sum(ws, Persisted(f)) + Sum(ws, Pending(f))
  {
    if ws != [] {
      assert ws[|ws| - 1] in ws;
      assert forall w | w in ws[..|ws| - 1] :: w in ws;
      SumSplits(ws[..|ws| - 1], f);
    }
  }

  /** The balance of every run: what is stored, what is pending and what is dropped together grow by
      exactly what is recorded and what joining routers bring, whatever saves are lost or given up. */
  lemma {:induction false} RunBalances(s: System, es: seq<Event>, f: Field)
    requires AllOrdered(s)
    ensures var r := Run(s, es);
            Counted(r.stored).Of(f) + Sum(r.workers, Pending(f)) + Drops(s, es, f)
            == Counted(s.stored).Of(f) + Sum(s.workers, Pending(f)) + Gains(s, es, f)
  {
    RunConserves(s, es, f);
    SumSplits(s.workers, f);
    SumSplits(Run(s, es).workers, f);
  }

  /** What the n-th step of a run drops. */
  function DropAt(s: System, es: seq<Event>, n: nat, f: Field): nat
    requires n < |es|
  {
    Drop(Run(s, es[..n]), es[n], f)
  }

  /** Nobody with counts of its own joins when the key holds counts. */
  predicate NothingDropped(s: System, es: seq<Event>, f: Field) {
    forall n | 0 <= n < |es| :: DropAt(s, es, n, f) == 0
  }

  lemma {:induction false} DropInPrefix(s: System, es: seq<Event>, n: nat, f: Field)
    requires n < |es| - 1
    ensures DropAt(s, es[..|es| - 1], n, f) == DropAt(s, es, n, f)
  {
    assert es[..|es| - 1][..n] == es[..n];
  }

  lemma {:induction false} DropsAddUp(s: System, es: seq<Event>, f: Field)
    ensures Drops(s, es, f) == 0 <==> NothingDropped(s, es, f)
  {
    if es != [] {
      var init, last := es[..|es| - 1], |es| - 1;
      DropsAddUp(s, init, f);
      forall n: nat | n < last ensures DropAt(s, init, n, f) == DropAt(s, es, n, f) { DropInPrefix(s, es, n, f); }
      assert Drops(s, es, f) == Drops(s, init, f) + DropAt(s, es, last, f);
    }
  }

  /** Exactly when nothing is lost and nothing counted twice: what is stored and what is pending together
      grow by everything that is recorded and brought, in any interleaving, if and only if no router
      with counts of its own joins a key that holds counts. */
  lemma {:induction false} NothingLostOrDoubled(s: System, es: seq<Event>, f: Field)
    requires AllOrdered(s)
    ensures var r := Run(s, es);
            Counted(r.stored).Of(f) + Sum(r.workers, Pending(f))
            == Counted(s.stored).Of(f) + Sum(s.workers, Pending(f)) + Gains(s, es, f)
            <==> NothingDropped(s, es, f)
  {
    RunBalances(s, es, f);
    DropsAddUp(s, es, f);
  }

  /** A router with a failure in its stats file joins a key that holds counts: the failure is gone. */
  lemma {:induction false} OwnCountsAreDropped(counters: Counters, rest: int)
    ensures var s := System(Stats(counters, rest), 0, []);
            var r := Run(s, [Join(0, Counters(0, 1, 0, 0))]);
            && r.stored == s.stored && Gains(s, [Join(0, Counters(0, 1, 0, 0))], Failure) == 1
            && Sum(r.workers, Pending(Failure)) == 0
  {
    var s := System(Stats(counters, rest), 0, []);
    var e := Join(0, Counters(0, 1, 0, 0));
    assert [e][..0] == [] && Run(s, []) == s;
    assert Gains(s, [], Failure) == 0;
    var r := Run(s, [e]);
    assert r == Step(s, e);
    assert r.workers == [Joined(s.stored, e.own)];
    assert r.workers[..0] == [];
    assert Sum(r.workers[..0], Pending(Failure)) == 0;
  }

  // ---- One save ----

  lemma {:induction false} RunOfThree(s: System, a: Event, b: Event, c: Event)
    ensures Run(s, [a, b, c]) == Step(Step(Step(s, a), b), c)
  {
    assert [a, b, c][..2] == [a, b] && [a, b][..1] == [a] && [a][..0] == [];
    assert Run(s, []) == s;
    assert Run(s, [a]) == Step(s, a);
    assert Run(s, [a, b]) == Step(Step(s, a), b);
  }

  /** A save that nobody disturbs writes the worker's own other fields and adds what each counter has gained
      since the baseline, which moves up to the counts saved. The one value it cannot replace is an empty
      text, since the swap takes that for a missing key. */
  lemma {:induction false} UndisturbedSave(s: System, i: nat, rest: int, f: Field)
    requires i < |s.workers| && s.workers[i].phase.Idle?
    ensures var r := Run(s, [Begin(i, rest), Read(i), Swap(i)]);
            && |r.workers| == |s.workers|
            && var w, x := s.workers[i], r.workers[i];
            if s.stored == Corrupt("") then
              r.stored == s.stored && x.baseline == w.baseline && x.phase == Reading(w.local, rest, 1)
            else
              && r.stored.Stats? && r.stored.rest == rest
              && r.stored.counters.Of(f)
                 == (if s.stored.Stats? then s.stored.counters.Of(f) else 0)
                    + (if w.local.Of(f) > w.baseline.Of(f) then w.local.Of(f) - w.baseline.Of(f) else 0)
              && x == Worker(w.local, w.local, Idle, w.wins + 1, w.losses, w.gaveUp)
              && r.workers == s.workers[i := x]
  {
    var b, d, c := Begin(i, rest), Read(i), Swap(i);
    RunOfThree(s, b, d, c);
    assert Step(Step(s, b), d).workers[i].phase == Writing(s.workers[i].local, rest, 0, s.stored, s.version);
  }

  lemma {:induction false} JoinThenSave(s: System, own: Counters, rest: int)
    ensures var i, joined := |s.workers|, Step(s, Join(|s.workers|, own));
            && joined.workers == s.workers + [Joined(s.stored, own)]
            && Run(s, [Join(i, own), Begin(i, rest), Read(i), Swap(i)])
               == Run(joined, [Begin(i, rest), Read(i), Swap(i)])
  {
    var i := |s.workers|;
    var j, b, d, c := Join(i, own), Begin(i, rest), Read(i), Swap(i);
    var joined := Step(s, j);
    RunOfThree(s, j, b, d);
    RunOfThree(joined, b, d, c);
    assert [j, b, d, c][..3] == [j, b, d];
  }

  /** A router that joins and saves without having recorded anything leaves the stored counts as they
      were: what it took over is not persisted a second time. */
  lemma {:induction false} JoiningIsNoRecording(s: System, own: Counters, rest: int, f: Field)
    requires s.stored.Stats?
    ensures var i := |s.workers|;
            var r := Run(s, [Join(i, own), Begin(i, rest), Read(i), Swap(i)]);
            && r.stored.Stats? && r.stored.counters.Of(f) == s.stored.counters.Of(f)
            && r.workers == s.workers + [Worker(s.stored.counters, s.stored.counters, Idle, 1, 0, 0)]
  {
    var i := |s.workers|;
    JoinThenSave(s, own, rest);
    UndisturbedSave(Step(s, Join(i, own)), i, rest, f);
  }

  /** Where the key holds no counts, a router that joins and saves persists its own. */
  lemma {:induction false} JoiningBringsOwn(s: System, own: Counters, rest: int, f: Field)
    requires !s.stored.Stats? && s.stored != Corrupt("")
    ensures var i := |s.workers|;
            var r := Run(s, [Join(i, own), Begin(i, rest), Read(i), Swap(i)]);
            && r.stored.Stats? && r.stored.counters.Of(f) == own.Of(f)
            && r.workers == s.workers + [Worker(own, own, Idle, 1, 0, 0)]
  {
    var i := |s.workers|;
    JoinThenSave(s, own, rest);
    UndisturbedSave(Step(s, Join(i, own)), i, rest, f);
  }

  /** A swap is lost exactly when the key no longer holds what was read, nothing and an empty text being
      read alike; it leaves the key and the worker's counts alone, and the eighth one ends the save. */
  lemma {:induction false} LostSwap(s: System, i: nat)
    requires i < |s.workers| && s.workers[i].phase.Writing?
    ensures var Writing(snapshot, rest, attempt, expected, _) := s.workers[i].phase;
            var lost := if expected in {Absent, Corrupt("")} then s.stored != Absent else s.stored != expected;
            var r := Step(s, Swap(i));
            var w, x := s.workers[i], r.workers[i];
            && (lost <==> x.losses == w.losses + 1)
            && (lost <==> x.wins == w.wins)
            && (lost ==>
                  && r == s.(workers := s.workers[i := x])
                  && x.local == w.local && x.baseline == w.baseline
                  && x.phase == (if attempt < 7 then Reading(snapshot, rest, attempt + 1) else Idle)
                  && x.gaveUp == w.gaveUp + (if attempt < 7 then 0 else 1))
  {
  }

  /** Recording an outcome raises one counter by one and touches nothing else, also during a save; the
      steps of a save are taken in their order, each by a worker that is there; any other changes nothing. */
  lemma {:induction false} StepsInOrder(s: System, e: Event, f: Field)
    ensures e.Record? && e.i < |s.workers| ==>
              var x := Step(s, e).workers[e.i];
              && Step(s, e) == s.(workers := s.workers[e.i := x]) && x == s.workers[e.i].(local := x.local)
              && x.local.Of(f) == s.workers[e.i].local.Of(f) + (if e.f == f then 1 else 0)
    ensures if e.Join? then e.i != |s.workers| ==> Step(s, e) == s
            else if e.i >= |s.workers| then Step(s, e) == s
            else
              var phase := s.workers[e.i].phase;
              (e.Begin? && !phase.Idle?) || (e.Read? && !phase.Reading?) || (e.Swap? && !phase.Writing?)
              ==> Step(s, e) == s
  {
  }

  /** A key that holds an empty text keeps it in every run. */
  lemma {:induction false} EmptyTextStays(s: System, es: seq<Event>)
    requires s.stored == Corrupt("")
    ensures Run(s, es).stored == Corrupt("")
  {
    if es != [] { EmptyTextStays(s, es[..|es| - 1]); }
  }

  /** A merge never takes anything away, and adds exactly what was recorded since the baseline
      unless the local counter has fallen behind it. */
  lemma {:induction false} MergeAddsDelta(current: Stored, local: Counters, rest: int, baseline: Counters, f: Field)
    ensures Counted(Merge(current, local, rest, baseline)).Of(f) >= Counted(current).Of(f)
    ensures (Counted(Merge(current, local, rest, baseline)).Of(f) - Counted(current).Of(f)
             == local.Of(f) - baseline.Of(f))
            <==> baseline.Of(f) <= local.Of(f)
    ensures Merge(current, local, rest, baseline).rest == rest
  {
  }
}
