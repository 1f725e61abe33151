/** The exact-sum experiment: N workers each record F failures on one model and save once. */
module CasTorture {
  import opened CasProtocol

  const FRESH := Worker(ZERO, ZERO, Idle, 0, 0, 0)

  /** The key has been deleted and every worker has just connected. */
  function Start(n: nat): System {
    System(Absent, 0, seq(n, _ => FRESH))
  }

  predicate NotSavedYet(w: Worker) {
    w.phase.Idle? && w.wins == 0 && w.gaveUp == 0
  }

  /** What the script of a worker lets it do next: F failures, then one save. A router that has
      recorded nothing has no stats to save; nobody joins later. */
  predicate Scripted(failures: nat, s: System, e: Event) {
    && !e.Join?
    && (e.i < |s.workers| ==>
      var w := s.workers[e.i];
      match e
      case Record(_, f) => f == Failure && w.local.failure < failures && NotSavedYet(w)
      case Begin(_, _) => failures > 0 && w.local.failure == failures && NotSavedYet(w)
      case _ => true)
  }

  /** One interleaving of the experiment; events the script does not allow are skipped. */
  function Torture(failures: nat, s: System, es: seq<Event>): System {
    if es == [] then s
    else
      var before := Torture(failures, s, es[..|es| - 1]);
      if Scripted(failures, before, es[|es| - 1]) then Step(before, es[|es| - 1]) else before
  }

  predicate Finished(failures: nat, w: Worker) {
    failures == 0 || (w.phase.Idle? && w.wins + w.gaveUp == 1)
  }

  predicate Complete(failures: nat, s: System) {
    forall w | w in s.workers :: Finished(failures, w)
  }

  /** `observed_failure_count` */
  function Observed(s: System): nat {
    Counted(s.stored).failure
  }

  // ---- What every step keeps ----

  function Wins(): Worker -> nat {
    (w: Worker) => w.wins
  }

  function Losses(): Worker -> nat {
    (w: Worker) => w.losses
  }

  function WinnersLosses(): Worker -> nat {
    (w: Worker) => if w.wins == 0 then 0 else w.losses
  }

  function OthersLosses(): Worker -> nat {
    (w: Worker) => if w.wins == 0 then w.losses else 0
  }

  /** 0 + 1 + ... + (n - 1) */
  function Triangle(n: nat): nat {
    if n == 0 then 0 else Triangle(n - 1) + n - 1
  }

  predicate WorkerOk(failures: nat, s: System, w: Worker) {
    && w.wins + w.gaveUp <= 1
    && w.local.failure <= failures
    && w.baseline.failure == (if w.wins == 1 then failures else 0)
    && (w.wins == 0 ==> w.losses <= s.version)
    && (w.gaveUp == 1 ==> w.losses == CAS_MAX_RETRIES)
    && (w.gaveUp == 0 && w.wins == 0 && w.phase.Idle? ==> w.losses == 0)
    && match w.phase
       case Idle => true
       case Reading(snapshot, _, attempt) =>
         w.wins == w.gaveUp == 0 && snapshot.failure == failures > 0 && attempt == w.losses < CAS_MAX_RETRIES
       case Writing(snapshot, _, attempt, expected, readAt) =>
         && w.wins == w.gaveUp == 0 && snapshot.failure == failures > 0 && attempt == w.losses < CAS_MAX_RETRIES
         && attempt <= readAt <= s.version && !expected.Corrupt?
         && (readAt == s.version ==> expected == s.stored)
  }

  ghost predicate Inv(failures: nat, n: nat, s: System) {
    && |s.workers| == n
    && !s.stored.Corrupt?
    && Observed(s) == failures * s.version
    && s.version == Sum(s.workers, Wins())
    && Sum(s.workers, WinnersLosses()) <= Triangle(s.version)
    && forall w | w in s.workers :: WorkerOk(failures, s, w)
  }

  lemma {:induction false} StartSums(n: nat, measure: Worker -> nat)
    requires measure(FRESH) == 0
    ensures Sum(Start(n).workers, measure) == 0
  {
    if n != 0 {
      assert Start(n).workers[..n - 1] == Start(n - 1).workers;
      StartSums(n - 1, measure);
    }
  }

  lemma {:induction false} StartInv(failures: nat, n: nat)
    ensures Inv(failures, n, Start(n))
  {
    StartSums(n, Wins());
    StartSums(n, WinnersLosses());
  }

  /** The other workers stay in order when the key is written or left alone. */
  lemma {:induction false} OthersOk(failures: nat, s: System, r: System, w: Worker)
    requires WorkerOk(failures, s, w)
    requires r.version >= s.version && (r.version == s.version ==> r.stored == s.stored)
    ensures WorkerOk(failures, r, w)
  {
  }

  lemma {:induction false} OneWorkerSteps(failures: nat, n: nat, s: System, r: System, i: nat, w: Worker)
    requires Inv(failures, n, s) && i < n
    requires r.workers == s.workers[i := w] && r.version >= s.version
    requires r.version == s.version ==> r.stored == s.stored
    requires !r.stored.Corrupt? && Observed(r) == failures * r.version
    requires WorkerOk(failures, r, w)
    requires r.version - s.version == w.wins - s.workers[i].wins
    requires if r.version == s.version then w.wins == 0 || w.losses == s.workers[i].losses
             else r.version == s.version + 1 && w.losses <= s.version
    ensures Inv(failures, n, r)
  {
    SumUpdate(s.workers, Wins(), i, w);
    SumUpdate(s.workers, WinnersLosses(), i, w);
    forall x | x in r.workers ensures WorkerOk(failures, r, x) {
      if x != w {
        assert x in s.workers;
        OthersOk(failures, s, r, x);
      }
    }
  }

  lemma {:induction false} TimesNext(f: nat, v: nat)
    ensures f * (v + 1) == f * v + f
  {
  }

  /** What a scripted step does to the worker that takes it and to the key. */
  lemma {:induction false} StepOfWorker(failures: nat, s: System, e: Event)
    requires e.i < |s.workers| && Scripted(failures, s, e) && WorkerOk(failures, s, s.workers[e.i])
    requires !s.stored.Corrupt? && Observed(s) == failures * s.version
    ensures var r := Step(s, e);
            && WorkerOk(failures, r, r.workers[e.i])
            && !r.stored.Corrupt? && Observed(r) == failures * r.version
            && r.version - s.version == r.workers[e.i].wins - s.workers[e.i].wins
            && (if r.version == s.version then
                  r.workers[e.i].wins == 0 || r.workers[e.i].losses == s.workers[e.i].losses
                else r.version == s.version + 1 && r.workers[e.i].losses <= s.version)
  {
    TimesNext(failures, s.version);
  }

  lemma {:induction false} StepKeepsInv(failures: nat, n: nat, s: System, e: Event)
    requires Inv(failures, n, s) && Scripted(failures, s, e)
    ensures Inv(failures, n, Step(s, e))
  {
    if e.i < n {
      var w, r := s.workers[e.i], Step(s, e);
      assert w in s.workers && WorkerOk(failures, s, w);
      if r != s {
        StepOfWorker(failures, s, e);
        OneWorkerSteps(failures, n, s, r, e.i, r.workers[e.i]);
      }
    }
  }

  lemma {:induction false} TortureKeepsInv(failures: nat, n: nat, s: System, es: seq<Event>)
    requires Inv(failures, n, s)
    ensures Inv(failures, n, Torture(failures, s, es))
  {
    if es != [] {
      TortureKeepsInv(failures, n, s, es[..|es| - 1]);
      var before := Torture(failures, s, es[..|es| - 1]);
      if Scripted(failures, before, es[|es| - 1]) { StepKeepsInv(failures, n, before, es[|es| - 1]); }
    }
  }

  // ---- What the experiment observes ----

  lemma {:induction false} WinsAtMost(ws: seq<Worker>)
    requires forall w | w in ws :: w.wins <= 1
    ensures Sum(ws, Wins()) <= |ws|
    ensures (exists w | w in ws :: w.wins == 0) ==> Sum(ws, Wins()) < |ws|
    ensures (forall w | w in ws :: w.wins == 1) ==> Sum(ws, Wins()) == |ws|
  {
    if ws != [] {
      var init, last := ws[..|ws| - 1], ws[|ws| - 1];
      assert ws == init + [last];
      assert last in ws;
      WinsAtMost(init);
      if w :| w in ws && w.wins == 0 { assert w in init || w == last; }
    }
  }

  /** In every interleaving the counter holds F for each worker whose save succeeded. */
  lemma {:induction false} ObservedIsWinnersSum(failures: nat, n: nat, es: seq<Event>)
    ensures var r := Torture(failures, Start(n), es);
            Observed(r) == failures * Sum(r.workers, Wins()) && Sum(r.workers, Wins()) <= n
  {
    StartInv(failures, n);
    TortureKeepsInv(failures, n, Start(n), es);
    WinsAtMost(Torture(failures, Start(n), es).workers);
  }

  /** A worker gives up only when more than eight workers take part. */
  lemma {:induction false} NobodyGivesUp(failures: nat, n: nat, es: seq<Event>, w: Worker)
    requires n <= 8 && w in Torture(failures, Start(n), es).workers
    ensures w.gaveUp == 0
  {
    StartInv(failures, n);
    TortureKeepsInv(failures, n, Start(n), es);
    WinsAtMost(Torture(failures, Start(n), es).workers);
  }

  lemma {:induction false} ExactUpToRetries(failures: nat, n: nat, es: seq<Event>)
    requires n <= 8 || failures == 0
    requires Complete(failures, Torture(failures, Start(n), es))
    ensures Observed(Torture(failures, Start(n), es)) == n * failures
  {
    var r := Torture(failures, Start(n), es);
    ObservedIsWinnersSum(failures, n, es);
    StartInv(failures, n);
    TortureKeepsInv(failures, n, Start(n), es);
    if failures != 0 {
      forall w | w in r.workers ensures w.wins == 1 { NobodyGivesUp(failures, n, es, w); }
      AllWon(r.workers);
    }
    TimesCommutes(failures, n);
  }

  lemma {:induction false} AllWon(ws: seq<Worker>)
    requires forall w | w in ws :: w.wins == 1
    ensures Sum(ws, Wins()) == |ws|
  {
    WinsAtMost(ws);
  }

  lemma {:induction false} TimesCommutes(a: nat, b: nat)
    ensures a * b == b * a
  {
  }

  // ---- How many swaps are lost ----

  lemma {:induction false} OthersLossesBound(ws: seq<Worker>, bound: nat)
    requires forall w | w in ws :: w.wins <= 1 && (w.wins == 0 ==> w.losses <= bound)
    ensures Sum(ws, Wins()) <= |ws|
    ensures Sum(ws, OthersLosses()) <= (|ws| - Sum(ws, Wins())) * bound
    ensures Sum(ws, Losses()) == Sum(ws, WinnersLosses()) + Sum(ws, OthersLosses())
  {
    if ws != [] {
      var init, last := ws[..|ws| - 1], ws[|ws| - 1];
      assert ws == init + [last];
      assert last in ws;
      OthersLossesBound(init, bound);
      var rest := |init| - Sum(init, Wins());
      assert (rest + 1) * bound == rest * bound + bound;
    }
  }

  lemma {:induction false} TriangleGrows(v: nat, n: nat)
    requires v <= n
    ensures Triangle(v) + (n - v) * v <= Triangle(n)
  {
    if v < n {
      TriangleGrows(v, n - 1);
      assert (n - v) * v == (n - 1 - v) * v + v;
    }
  }

  lemma {:induction false} TriangleFormula(n: nat)
    ensures 2 * Triangle(n) == n * (n - 1)
  {
    if n != 0 {
      TriangleFormula(n - 1);
      assert n * (n - 1) == (n - 1) * (n - 2) + 2 * (n - 1);
    }
  }

  /** However the N writers interleave, at most N(N-1)/2 swaps are lost in all. */
  lemma {:induction false} LostSwapsBound(failures: nat, n: nat, es: seq<Event>)
    ensures 2 * Sum(Torture(failures, Start(n), es).workers, Losses()) <= n * (n - 1)
  {
    var r := Torture(failures, Start(n), es);
    StartInv(failures, n);
    TortureKeepsInv(failures, n, Start(n), es);
    OthersLossesBound(r.workers, r.version);
    TriangleGrows(r.version, n);
    TriangleFormula(n);
  }

  // ---- With more workers than retries, a save can be abandoned ----

  lemma {:induction false} TortureConcat(failures: nat, s: System, a: seq<Event>, b: seq<Event>)
    ensures Torture(failures, s, a + b) == Torture(failures, Torture(failures, s, a), b)
  {
    if b == [] {
      assert a + b == a;
    } else {
      TortureConcat(failures, s, a, b[..|b| - 1]);
      assert (a + b)[..|a + b| - 1] == a + b[..|b| - 1];
    }
  }

  lemma {:induction false} OneEvent(failures: nat, s: System, e: Event)
    ensures Torture(failures, s, [e]) == if Scripted(failures, s, e) then Step(s, e) else s
  {
    assert [e][..0] == [];
    assert Torture(failures, s, []) == s;
  }

  function Ready(failures: nat): Worker {
    FRESH.(local := Counters(0, failures, 0, 0))
  }

  /** Worker i records failures until it has `k` of them. */
  lemma {:induction false} RecordUpTo(failures: nat, s: System, i: nat, k: nat) returns (es: seq<Event>)
    requires i < |s.workers| && s.workers[i] == FRESH && k <= failures
    ensures Torture(failures, s, es) == s.(workers := s.workers[i := Ready(k)])
  {
    if k == 0 {
      es := [];
      assert s.workers[i := Ready(0)] == s.workers;
    } else {
      es := RecordUpTo(failures, s, i, k - 1);
      var before := Torture(failures, s, es);
      var e := Record(i, Failure);
      OneEvent(failures, before, e);
      TortureConcat(failures, s, es, [e]);
      assert before.workers[i := Ready(k)] == s.workers[i := Ready(k)];
      es := es + [e];
    }
  }

  /** The first `k` workers record all their failures. */
  lemma {:induction false} RecordAll(failures: nat, n: nat, k: nat) returns (es: seq<Event>)
    requires k <= n
    ensures var r := Torture(failures, Start(n), es);
            && r.stored == Absent && r.version == 0 && |r.workers| == n
            && forall i | 0 <= i < n :: r.workers[i] == if i < k then Ready(failures) else FRESH
  {
    if k == 0 {
      es := [];
    } else {
      es := RecordAll(failures, n, k - 1);
      var more := RecordUpTo(failures, Torture(failures, Start(n), es), k - 1, failures);
      TortureConcat(failures, Start(n), es, more);
      es := es + more;
    }
  }

  /** A worker that is ready saves without being disturbed. */
  lemma {:induction false} SaveAlone(failures: nat, s: System, i: nat) returns (es: seq<Event>)
    requires failures > 0 && i < |s.workers| && s.workers[i] == Ready(failures) && !s.stored.Corrupt?
    ensures var r := Torture(failures, s, es);
            && |r.workers| == |s.workers|
            && (forall j | 0 <= j < |s.workers| && j != i :: r.workers[j] == s.workers[j])
            && r.workers[i].phase.Idle? && r.workers[i].wins == 1 && r.workers[i].gaveUp == 0
            && !r.stored.Corrupt? && Observed(r) == Observed(s) + failures
  {
    var b, d, w := Begin(i, 0), Read(i), Swap(i);
    var s1 := Step(s, b);
    var s2 := Step(s1, d);
    OneEvent(failures, s, b);
    OneEvent(failures, s1, d);
    OneEvent(failures, s2, w);
    TortureConcat(failures, s, [b], [d]);
    TortureConcat(failures, s, [b] + [d], [w]);
    es := [b] + [d] + [w];
  }

  /** Worker 0 has read the key for its attempt number `attempt`. */
  predicate ReadFor(failures: nat, s: System, attempt: nat) {
    && |s.workers| > 0 && s.workers[0].phase.Writing?
    && s.workers[0].wins == s.workers[0].gaveUp == 0
    && s.workers[0].phase.attempt == attempt && s.workers[0].phase.expected == s.stored
  }

  /** Worker 0 has read the key; worker i saves; worker 0 loses its swap and, unless that was its
      last attempt, reads again. */
  lemma {:induction false} LoseTo(failures: nat, s: System, attempt: nat, i: nat) returns (es: seq<Event>)
    requires failures > 0 && ReadFor(failures, s, attempt) && attempt < CAS_MAX_RETRIES
    requires 0 < i < |s.workers| && s.workers[i] == Ready(failures) && !s.stored.Corrupt?
    ensures var r := Torture(failures, s, es);
            && |r.workers| == |s.workers| && !r.stored.Corrupt?
            && (forall j | 0 < j < |s.workers| && j != i :: r.workers[j] == s.workers[j])
            && r.workers[i].phase.Idle? && r.workers[i].wins == 1 && r.workers[i].gaveUp == 0
            && (attempt + 1 < CAS_MAX_RETRIES ==> ReadFor(failures, r, attempt + 1))
            && (attempt + 1 == CAS_MAX_RETRIES ==>
                  r.workers[0].phase.Idle? && r.workers[0].wins == 0 && r.workers[0].gaveUp == 1)
  {
    var saves := SaveAlone(failures, s, i);
    var s1 := Torture(failures, s, saves);
    var lose, again := Swap(0), Read(0);
    assert s1.stored != s1.workers[0].phase.expected;
    var s2 := Step(s1, lose);
    OneEvent(failures, s1, lose);
    OneEvent(failures, s2, again);
    TortureConcat(failures, s, saves, [lose]);
    TortureConcat(failures, s, saves + [lose], [again]);
    es := saves + [lose] + [again];
  }

  ghost predicate WonFrom(failures: nat, s: System, k: nat) {
    && !s.stored.Corrupt?
    && forall i | 0 < i < |s.workers| ::
         if i < k then s.workers[i].phase.Idle? && s.workers[i].wins == 1 && s.workers[i].gaveUp == 0
         else s.workers[i] == Ready(failures)
  }

  /** Worker 0 loses to workers 1 .. k in turn. */
  lemma {:induction false} LoseRepeatedly(failures: nat, s: System, k: nat) returns (es: seq<Event>)
    requires failures > 0 && k <= CAS_MAX_RETRIES < |s.workers| && ReadFor(failures, s, 0) && WonFrom(failures, s, 1)
    ensures var r := Torture(failures, s, es);
            && |r.workers| == |s.workers| && WonFrom(failures, r, k + 1)
            && (k < CAS_MAX_RETRIES ==> ReadFor(failures, r, k))
            && (k == CAS_MAX_RETRIES ==>
                  r.workers[0].phase.Idle? && r.workers[0].wins == 0 && r.workers[0].gaveUp == 1)
  {
    if k == 0 {
      es := [];
    } else {
      es := LoseRepeatedly(failures, s, k - 1);
      var more := LoseTo(failures, Torture(failures, s, es), k - 1, k);
      TortureConcat(failures, s, es, more);
      es := es + more;
    }
  }

  /** The remaining workers save one after the other. */
  lemma {:induction false} FinishOthers(failures: nat, s: System, k: nat, m: nat) returns (es: seq<Event>)
    requires failures > 0 && 0 < k <= m <= |s.workers| && WonFrom(failures, s, k)
    ensures var r := Torture(failures, s, es);
            |r.workers| == |s.workers| && WonFrom(failures, r, m) && r.workers[0] == s.workers[0]
  {
    if m == k {
      es := [];
    } else {
      es := FinishOthers(failures, s, k, m - 1);
      var more := SaveAlone(failures, Torture(failures, s, es), m - 1);
      TortureConcat(failures, s, es, more);
      es := es + more;
    }
  }

  /** With more than eight workers there is an interleaving in which every worker finishes
      but one has abandoned its save, so its failures are missing from the counter. */
  lemma {:induction false} SaveCanBeAbandoned(failures: nat, n: nat) returns (es: seq<Event>)
    requires failures > 0 && n > 8
    ensures Complete(failures, Torture(failures, Start(n), es))
    ensures Observed(Torture(failures, Start(n), es)) < n * failures
  {
    es := RecordAll(failures, n, n);
    var s0 := Torture(failures, Start(n), es);
    var b, d := Begin(0, 0), Read(0);
    var s1 := Step(s0, b);
    var s2 := Step(s1, d);
    OneEvent(failures, s0, b);
    OneEvent(failures, s1, d);
    TortureConcat(failures, Start(n), es, [b]);
    TortureConcat(failures, Start(n), es + [b], [d]);
    es := es + [b] + [d];
    var losing := LoseRepeatedly(failures, s2, CAS_MAX_RETRIES);
    TortureConcat(failures, Start(n), es, losing);
    es := es + losing;
    var s3 := Torture(failures, Start(n), es);
    var others := FinishOthers(failures, s3, CAS_MAX_RETRIES + 1, n);
    TortureConcat(failures, Start(n), es, others);
    es := es + others;
    var r := Torture(failures, Start(n), es);
    assert Complete(failures, r) by {
      forall w | w in r.workers ensures Finished(failures, w) {
        var i :| 0 <= i < n && r.workers[i] == w;
      }
    }
    ObservedIsWinnersSum(failures, n, es);
    StartInv(failures, n);
    TortureKeepsInv(failures, n, Start(n), es);
    assert r.workers[0] in r.workers;
    WinsAtMost(r.workers);
    FewerIsLess(failures, Sum(r.workers, Wins()), n);
  }

  lemma {:induction false} FewerIsLess(failures: nat, won: nat, n: nat)
    requires failures > 0 && won < n
    ensures failures * won < n * failures
  {
    assert n * failures == failures * won + failures * (n - won);
    assert failures * (n - won) > 0;
  }

  /** The experiment is exact in every interleaving just when at most eight workers take part, the
      number of attempts of a save, or when nothing is recorded at all. */
  lemma {:induction false} ExactIffRetriesSuffice(failures: nat, n: nat)
    ensures (forall es: seq<Event> :: Complete(failures, Torture(failures, Start(n), es)) ==>
               Observed(Torture(failures, Start(n), es)) == n * failures)
            <==> n <= 8 || failures == 0
  {
    if n <= 8 || failures == 0 {
      forall es: seq<Event> | Complete(failures, Torture(failures, Start(n), es))
        ensures Observed(Torture(failures, Start(n), es)) == n * failures
      {
        ExactUpToRetries(failures, n, es);
      }
    } else {
      var es := SaveCanBeAbandoned(failures, n);
    }
  }
}
