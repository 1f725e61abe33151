/** The scored evaluation gate: criteria, thresholds, and the median of the live runs. */
module EvalGate {
  import opened Results

  // ---- Criteria derived from a workflow result ----

  /** A JSON value where a number is expected: missing, unusable, or a finite number. */
  datatype Number = Missing | Unusable | Finite(value: real)

  /** A step of a workflow result: `metrics` are the keys of its code metrics if it has any, `leaks`
      says that it carries a non-empty error type. */
  datatype StepResult = StepResult(name: string, succeeded: bool, metrics: Option<set<string>>, leaks: bool)

  /** A workflow result; `steps` is missing when it is not a list of well-formed steps. */
  datatype Golden = Golden(steps: Option<seq<StepResult>>, successRate: Number, totalRetries: Number)

  datatype Expectation =
    | MalformedExpectation
    | Expectation(stepNames: Option<seq<string>>, maxRetries: Number)

  datatype Criteria =
    Criteria(correctness: real, completeness: real, codeQuality: real, efficiency: real, security: real)

  const REQUIRED_METRIC_KEYS: set<string> := {"chars", "lines", "function_count", "class_count", "import_count"}

  const DEFAULT_EXPECTED_STEPS: seq<string> :=
    ["parse_code", "style_check", "complexity_analysis", "review_code", "generate_summary"]

  function OrDefault(n: Number, default: real): Number {
    if n.Missing? then Finite(default) else n
  }

  /** `max(0, int(x))`: truncation towards zero, then clamped. */
  function ClampedInt(x: real): nat {
    if x < 0.0 then 0 else x.Floor
  }

  function Succeeded(steps: seq<StepResult>): set<string> {
    set s | s in steps && s.succeeded :: s.name
  }

  function CountIn(names: seq<string>, those: set<string>): nat {
    if names == [] then 0
    else CountIn(names[..|names| - 1], those) + if names[|names| - 1] in those then 1 else 0
  }

  function FirstNamed(steps: seq<StepResult>, name: string): Option<StepResult> {
    if steps == [] then None else if steps[0].name == name then Some(steps[0]) else FirstNamed(steps[1..], name)
  }

  function Ratio(part: nat, whole: nat): real
    requires whole > 0
  {
    part as real / whole as real
  }

  function Completeness(names: seq<string>, steps: seq<StepResult>): real {
    if names == [] then 0.0 else Ratio(CountIn(names, Succeeded(steps)), |names|)
  }

  function CodeQuality(steps: seq<StepResult>): real {
    match FirstNamed(steps, "parse_code")
    case None => 0.0
    case Some(step) =>
      match step.metrics
      case None => 0.0
      case Some(keys) => Ratio(|REQUIRED_METRIC_KEYS * keys|, 5)
  }

  function Efficiency(retries: nat, budget: nat): real
    requires budget > 0
  {
    if retries <= budget then 1.0 - Ratio(retries, budget) else 0.0
  }

  predicate AnyLeak(steps: seq<StepResult>) {
    exists i | 0 <= i < |steps| :: steps[i].leaks
  }

  /** `derive_criteria`; an error stands for the ValueError of malformed input. */
  function DeriveCriteria(golden: Golden, expected: Expectation): Result<Criteria, ()> {
    if expected.MalformedExpectation? || golden.steps.None? then Err(())
    else
      var steps := golden.steps.value;
      var rate, retries := OrDefault(golden.successRate, 0.0), OrDefault(golden.totalRetries, 0.0);
      var budget := OrDefault(expected.maxRetries, 0.0);
      if rate.Unusable? || retries.Unusable? || budget.Unusable? then Err(())
      else
        var names := match expected.stepNames case Some(given) => given case None => DEFAULT_EXPECTED_STEPS;
        Ok(Criteria(rate.value / 100.0, Completeness(names, steps), CodeQuality(steps),
                    Efficiency(ClampedInt(retries.value), ClampedInt(budget.value) + 1),
                    if AnyLeak(steps) then 0.0 else 1.0))
  }

  predicate Unit(x: real) {
    0.0 <= x <= 1.0
  }

  lemma {:induction false} QuotientRange(p: real, w: real)
    requires w > 0.0 && p >= 0.0
    ensures p / w >= 0.0 && (p / w == 0.0 <==> p == 0.0)
    ensures (p / w <= 1.0 <==> p <= w) && (p / w == 1.0 <==> p == w)
  {
    var r := p / w;
    assert r * w == p;
    assert r > 1.0 ==> (r - 1.0) * w > 0.0;
    assert r < 1.0 ==> (1.0 - r) * w > 0.0;
    assert (r - 1.0) * w == p - w;
  }

  lemma {:induction false} RatioRange(part: nat, whole: nat)
    requires whole > 0
    ensures Ratio(part, whole) >= 0.0
    ensures Unit(Ratio(part, whole)) <==> part <= whole
    ensures Ratio(part, whole) == 1.0 <==> part == whole
    ensures Ratio(part, whole) == 0.0 <==> part == 0
  {
    QuotientRange(part as real, whole as real);
  }

  lemma {:induction false} CountAtMost(names: seq<string>, those: set<string>)
    ensures CountIn(names, those) <= |names|
    ensures CountIn(names, those) == |names| <==> forall i | 0 <= i < |names| :: names[i] in those
  {
    if names != [] { CountAtMost(names[..|names| - 1], those); }
  }

  lemma {:induction false} MetricCount(keys: set<string>)
    ensures |REQUIRED_METRIC_KEYS * keys| <= 5
    ensures |REQUIRED_METRIC_KEYS * keys| == 5 <==> REQUIRED_METRIC_KEYS <= keys
  {
    var all := REQUIRED_METRIC_KEYS;
    assert |all| == 5;
    SubsetSize(all * keys, all);
  }

  lemma {:induction false} SubsetSize<T>(a: set<T>, b: set<T>)
    requires a <= b
    ensures |a| <= |b|
    ensures |a| == |b| <==> a == b
  {
    assert b == a + (b - a);
    assert |b| == |a| + |b - a|;
  }

  /** Every criterion but Correctness always lies in [0, 1]; Correctness, and with it the whole
      result, does so exactly when the reported success rate is between 0 and 100. */
  lemma {:induction false} CriteriaRange(golden: Golden, expected: Expectation)
    requires DeriveCriteria(golden, expected).Ok?
    ensures var c := DeriveCriteria(golden, expected).value;
            && Unit(c.completeness) && Unit(c.codeQuality) && Unit(c.efficiency) && Unit(c.security)
            && (Unit(c.correctness) <==> 0.0 <= OrDefault(golden.successRate, 0.0).value <= 100.0)
  {
    var steps := golden.steps.value;
    var names := match expected.stepNames case Some(given) => given case None => DEFAULT_EXPECTED_STEPS;
    CountAtMost(names, Succeeded(steps));
    if names != [] { RatioRange(CountIn(names, Succeeded(steps)), |names|); }
    CodeQualityRange(steps);
    EfficiencyRange(ClampedInt(OrDefault(golden.totalRetries, 0.0).value),
                    ClampedInt(OrDefault(expected.maxRetries, 0.0).value) + 1);
  }

  lemma {:induction false} CodeQualityRange(steps: seq<StepResult>)
    ensures Unit(CodeQuality(steps))
    ensures CodeQuality(steps) == 1.0
            <==> match FirstNamed(steps, "parse_code")
                 case Some(step) => step.metrics.Some? && REQUIRED_METRIC_KEYS <= step.metrics.value
                 case None => false
  {
    match FirstNamed(steps, "parse_code")
    case Some(step) =>
      if step.metrics.Some? {
        MetricCount(step.metrics.value);
        RatioRange(|REQUIRED_METRIC_KEYS * step.metrics.value|, 5);
      }
    case None =>
  }

  /** No retries score 1, retries beyond the budget score 0, and every retry in between costs. */
  lemma {:induction false} EfficiencyRange(retries: nat, budget: nat)
    requires budget > 0
    ensures Unit(Efficiency(retries, budget))
    ensures Efficiency(retries, budget) == 1.0 <==> retries == 0
    ensures Efficiency(retries, budget) == 0.0 <==> retries >= budget
  {
    RatioRange(retries, budget);
  }

  /** Full marks in everything mean a spotless run, and nothing less does. */
  lemma {:induction false} FullMarks(golden: Golden, expected: Expectation)
    requires DeriveCriteria(golden, expected).Ok?
    ensures var steps := golden.steps.value;
            var names := match expected.stepNames case Some(given) => given case None => DEFAULT_EXPECTED_STEPS;
            var parse := FirstNamed(steps, "parse_code");
            DeriveCriteria(golden, expected).value == Criteria(1.0, 1.0, 1.0, 1.0, 1.0)
            <==>
            && golden.successRate == Finite(100.0)
            && names != [] && (forall i | 0 <= i < |names| :: names[i] in Succeeded(steps))
            && parse.Some? && parse.value.metrics.Some? && REQUIRED_METRIC_KEYS <= parse.value.metrics.value
            && ClampedInt(OrDefault(golden.totalRetries, 0.0).value) == 0
            && !AnyLeak(steps)
  {
    var steps := golden.steps.value;
    var names := match expected.stepNames case Some(given) => given case None => DEFAULT_EXPECTED_STEPS;
    CountAtMost(names, Succeeded(steps));
    if names != [] { RatioRange(CountIn(names, Succeeded(steps)), |names|); }
    CodeQualityRange(steps);
    EfficiencyRange(ClampedInt(OrDefault(golden.totalRetries, 0.0).value),
                    ClampedInt(OrDefault(expected.maxRetries, 0.0).value) + 1);
  }

  // ---- What each criterion measures ----

  /** Some step of this name succeeded. */
  predicate HasSucceeded(steps: seq<StepResult>, name: string) {
    exists i | 0 <= i < |steps| :: steps[i].name == name && steps[i].succeeded
  }

  /** The places, among the first `n`, of the names that are done. */
  function Places(done: string -> bool, names: seq<string>, n: nat): set<nat>
    requires n <= |names|
  {
    set i: nat | i < n && done(names[i])
  }

  lemma {:induction false} OneMorePlace(done: string -> bool, names: seq<string>, n: nat)
    requires n < |names|
    ensures |Places(done, names, n + 1)| == |Places(done, names, n)| + if done(names[n]) then 1 else 0
  {
    var before, after := Places(done, names, n), Places(done, names, n + 1);
    assert n !in before;
    if done(names[n]) {
      assert after == before + {n};
    } else {
      assert after == before;
    }
  }

  lemma {:induction false} CountsPlaces(names: seq<string>, those: set<string>, done: string -> bool, n: nat)
    requires n <= |names| && forall x :: done(x) <==> x in those
    ensures CountIn(names[..n], those) == |Places(done, names, n)|
  {
    if n != 0 {
      CountsPlaces(names, those, done, n - 1);
      assert names[..n][..n - 1] == names[..n - 1];
      OneMorePlace(done, names, n - 1);
    }
  }

  /** The first step of the name, if there is one. */
  lemma {:induction false} FirstNamedIsFirst(steps: seq<StepResult>, name: string)
    ensures match FirstNamed(steps, name)
            case None => forall i | 0 <= i < |steps| :: steps[i].name != name
            case Some(step) =>
              exists k | 0 <= k < |steps| ::
                steps[k] == step && step.name == name && forall j | 0 <= j < k :: steps[j].name != name
  {
    if steps != [] && steps[0].name != name {
      var rest := steps[1..];
      FirstNamedIsFirst(rest, name);
      assert forall i | 0 < i < |steps| :: steps[i] == rest[i - 1];
      if FirstNamed(rest, name).Some? {
        var k :| 0 <= k < |rest| && rest[k] == FirstNamed(rest, name).value
                 && forall j | 0 <= j < k :: rest[j].name != name;
        assert steps[k + 1] == rest[k];
      }
    }
  }

  /** `n` is the number truncated towards zero and never less than zero. */
  predicate Truncates(n: nat, x: real) {
    if x < 1.0 then n == 0 else n as real <= x < n as real + 1.0
  }

  lemma {:induction false} TimesWhole(p: real, w: real)
    requires w > 0.0
    ensures p / w * w == p
    ensures (1.0 - p / w) * w == w - p
  {
  }

  /** Correctness is the success rate out of a hundred. */
  lemma {:induction false} CorrectnessIsRate(golden: Golden, expected: Expectation)
    requires DeriveCriteria(golden, expected).Ok?
    ensures DeriveCriteria(golden, expected).value.correctness * 100.0
            == match golden.successRate case Finite(x) => x case _ => 0.0
  {
    TimesWhole(OrDefault(golden.successRate, 0.0).value, 100.0);
  }

  function Done(steps: seq<StepResult>): string -> bool {
    name => HasSucceeded(steps, name)
  }

  /** Completeness is the share of the expected names, the five default ones if none are given, that have
      a step that succeeded. */
  lemma {:induction false} CompletenessShare(golden: Golden, expected: Expectation)
    requires DeriveCriteria(golden, expected).Ok?
    ensures var share := DeriveCriteria(golden, expected).value.completeness;
            var names := match expected.stepNames
              case Some(given) => given
              case None => ["parse_code", "style_check", "complexity_analysis", "review_code", "generate_summary"];
            && (names == [] ==> share == 0.0)
            && share * |names| as real == |Places(Done(golden.steps.value), names, |names|)| as real
  {
    ShareOfNames(match expected.stepNames case Some(given) => given case None => DEFAULT_EXPECTED_STEPS,
                 golden.steps.value);
  }

  lemma {:induction false} ShareOfNames(names: seq<string>, steps: seq<StepResult>)
    ensures names == [] ==> Completeness(names, steps) == 0.0
    ensures Completeness(names, steps) * |names| as real == |Places(Done(steps), names, |names|)| as real
  {
    var those, done := Succeeded(steps), Done(steps);
    forall x ensures done(x) <==> x in those { SucceededMeans(steps, x); }
    CountsPlaces(names, those, done, |names|);
    assert names[..|names|] == names;
    if names != [] { TimesWhole(CountIn(names, those) as real, |names| as real); }
  }

  lemma {:induction false} SucceededMeans(steps: seq<StepResult>, name: string)
    ensures name in Succeeded(steps) <==> HasSucceeded(steps, name)
  {
  }

  /** Code Quality is the share of five metrics that the first step named `parse_code` has. */
  lemma {:induction false} CodeQualityShare(steps: seq<StepResult>)
    ensures CodeQuality(steps) * 5.0
            == match FirstNamed(steps, "parse_code")
               case None => 0.0
               case Some(step) => match step.metrics
                 case None => 0.0
                 case Some(keys) =>
                   |{"chars", "lines", "function_count", "class_count", "import_count"} * keys| as real
  {
    match FirstNamed(steps, "parse_code")
    case Some(step) =>
      if step.metrics.Some? { TimesWhole(|REQUIRED_METRIC_KEYS * step.metrics.value| as real, 5.0); }
    case None =>
  }

  /** The other criteria: Efficiency falls with each retry by the same share, down to zero when the retries
      exceed the allowed ones; Security is lost with the first step that leaks an error type. */
  lemma {:induction false} QualityEfficiencySecurity(golden: Golden, expected: Expectation, retries: nat, allowed: nat)
    requires DeriveCriteria(golden, expected).Ok?
    requires Truncates(retries, match golden.totalRetries case Finite(x) => x case _ => 0.0)
    requires Truncates(allowed, match expected.maxRetries case Finite(x) => x case _ => 0.0)
    ensures var c := DeriveCriteria(golden, expected).value;
            && c.codeQuality == CodeQuality(golden.steps.value)
            && c.efficiency * (allowed + 1) as real
               == (if retries <= allowed then (allowed + 1 - retries) as real else 0.0)
            && c.security == (if exists step | step in golden.steps.value :: step.leaks then 0.0 else 1.0)
  {
    ClampTruncates(retries, OrDefault(golden.totalRetries, 0.0).value);
    ClampTruncates(allowed, OrDefault(expected.maxRetries, 0.0).value);
    TimesWhole(retries as real, (allowed + 1) as real);
    var steps := golden.steps.value;
    assert AnyLeak(steps) <==> exists step | step in steps :: step.leaks;
  }

  lemma {:induction false} ClampTruncates(n: nat, x: real)
    ensures Truncates(n, x) <==> ClampedInt(x) == n
  {
  }

  /** Criteria cannot be derived exactly when the expectations or the steps are malformed, or one of the
      three numbers is given but unusable. */
  lemma {:induction false} DerivesUnlessMalformed(golden: Golden, expected: Expectation)
    ensures DeriveCriteria(golden, expected).Err?
            <==> || expected.MalformedExpectation? || golden.steps.None?
                 || golden.successRate.Unusable? || golden.totalRetries.Unusable? || expected.maxRetries.Unusable?
  {
  }

  // ---- Thresholds ----

  function ValidateThreshold(n: Number): Result<real, ()> {
    if n.Finite? && Unit(n.value) then Ok(n.value) else Err(())
  }

  /** `_resolve_case_threshold`; a missing or null case threshold leaves the global one. */
  function ResolveThreshold(own: Number, global: Number): Result<real, ()> {
    match ValidateThreshold(global)
    case Err(_) => Err(())
    case Ok(bar) =>
      if own.Missing? then Ok(bar)
      else match ValidateThreshold(own)
        case Err(_) => Err(())
        case Ok(ownBar) => Ok(if bar >= ownBar then bar else ownBar)
  }

  /** Both bars must be cleared: the command line can tighten a case but never loosen it. */
  lemma {:induction false} ThresholdNeverLoosened(own: Number, global: Number, score: real)
    requires ResolveThreshold(own, global).Ok?
    ensures Unit(ResolveThreshold(own, global).value)
    ensures score >= ResolveThreshold(own, global).value
            <==> score >= global.value && (own.Missing? || score >= own.value)
  {
  }

  /** There is no threshold exactly when the global one, or a case's own, is no number from 0 to 1. */
  lemma {:induction false} ThresholdErrors(own: Number, global: Number)
    ensures ResolveThreshold(own, global).Err?
            <==> || !(global.Finite? && 0.0 <= global.value <= 1.0)
                 || !(own.Missing? || (own.Finite? && 0.0 <= own.value <= 1.0))
  {
  }

  // ---- The median ----

  function Insert(x: real, s: seq<real>): seq<real> {
    if s == [] || x <= s[0] then [x] + s else [s[0]] + Insert(x, s[1..])
  }

  function Sort(s: seq<real>): seq<real> {
    if s == [] then [] else Insert(s[0], Sort(s[1..]))
  }

  predicate Sorted(s: seq<real>) {
    forall i, j | 0 <= i <= j < |s| :: s[i] <= s[j]
  }

  /** How many scores meet a threshold. */
  function Meeting(s: seq<real>, t: real): nat {
    if s == [] then 0 else (if s[0] >= t then 1 else 0) + Meeting(s[1..], t)
  }

  lemma {:induction false} InsertElements(x: real, s: seq<real>)
    ensures multiset(Insert(x, s)) == multiset(s) + multiset{x} && |Insert(x, s)| == |s| + 1
  {
    if s != [] {
      assert s == [s[0]] + s[1..];
      if x > s[0] { InsertElements(x, s[1..]); }
    }
  }

  lemma {:induction false} PrependSorted(x: real, s: seq<real>)
    requires Sorted(s) && forall i | 0 <= i < |s| :: x <= s[i]
    ensures Sorted([x] + s)
  {
  }

  lemma {:induction false} InsertSorts(x: real, s: seq<real>)
    requires Sorted(s)
    ensures Sorted(Insert(x, s))
  {
    if s == [] || x <= s[0] {
      PrependSorted(x, s);
    } else {
      var tail := Insert(x, s[1..]);
      InsertSorts(x, s[1..]);
      InsertElements(x, s[1..]);
      forall i | 0 <= i < |tail| ensures s[0] <= tail[i] {
        assert tail[i] in multiset(tail);
        assert tail[i] == x || tail[i] in s[1..];
      }
      PrependSorted(s[0], tail);
    }
  }

  lemma {:induction false} SortSorts(s: seq<real>)
    ensures Sorted(Sort(s)) && |Sort(s)| == |s| && multiset(Sort(s)) == multiset(s)
  {
    if s != [] {
      SortSorts(s[1..]);
      InsertSorts(s[0], Sort(s[1..]));
      InsertElements(s[0], Sort(s[1..]));
      assert s == [s[0]] + s[1..];
    }
  }

  lemma {:induction false} InsertMeets(x: real, s: seq<real>, t: real)
    ensures Meeting(Insert(x, s), t) == Meeting(s, t) + if x >= t then 1 else 0
  {
    if s != [] && x > s[0] { InsertMeets(x, s[1..], t); }
  }

  lemma {:induction false} SortMeets(s: seq<real>, t: real)
    ensures Meeting(Sort(s), t) == Meeting(s, t)
  {
    if s != [] {
      SortMeets(s[1..], t);
      InsertMeets(s[0], Sort(s[1..]), t);
    }
  }

  /** In a sorted list the element at `m` meets the threshold just when everything from there on does. */
  lemma {:induction false} SortedMeets(s: seq<real>, m: nat, t: real)
    requires Sorted(s) && m < |s|
    ensures s[m] >= t <==> Meeting(s, t) >= |s| - m
  {
    var tail := s[1..];
    assert forall i | 0 <= i < |tail| :: tail[i] == s[i + 1];
    MeetingAtMost(tail, t);
    if m > 0 {
      SortedMeets(tail, m - 1, t);
    } else if s[0] >= t {
      AllMeet(tail, t);
    }
  }

  lemma {:induction false} MeetingAtMost(s: seq<real>, t: real)
    ensures Meeting(s, t) <= |s|
  {
    if s != [] { MeetingAtMost(s[1..], t); }
  }

  lemma {:induction false} AllMeet(s: seq<real>, t: real)
    requires forall i | 0 <= i < |s| :: s[i] >= t
    ensures Meeting(s, t) == |s|
  {
    if s != [] { AllMeet(s[1..], t); }
  }

  /** `statistics.median` */
  function Median(s: seq<real>): real
    requires s != []
  {
    SortSorts(s);
    var sorted := Sort(s);
    if |s| % 2 == 1 then sorted[|s| / 2] else (sorted[|s| / 2 - 1] + sorted[|s| / 2]) / 2.0
  }

  /** With an odd number of runs the median is one of the scores, and it meets a threshold exactly
      when a strict majority of the runs do. */
  lemma {:induction false} MedianIsMajority(s: seq<real>, t: real)
    requires |s| % 2 == 1
    ensures Median(s) in s
    ensures Median(s) >= t <==> 2 * Meeting(s, t) > |s|
  {
    SortSorts(s);
    SortMeets(s, t);
    SortedMeets(Sort(s), |s| / 2, t);
    assert Median(s) in multiset(Sort(s));
  }

  /** With an even number it lies half way between the two in the middle. */
  lemma {:induction false} MedianOfPair(x: real, y: real)
    ensures 2.0 * Median([x, y]) == x + y
  {
    assert [x, y][1..] == [y] && [y][1..] == [];
    assert Sort([]) == [] && Insert(y, []) == [y];
    assert Sort([y]) == [y];
    assert Insert(x, [y]) == if x <= y then [x, y] else [y, x];
    assert Sort([x, y]) == Insert(x, [y]);
  }

  lemma {:induction false} OtherScore(s: seq<real>, i: nat, x: real, t: real)
    requires i < |s|
    ensures Meeting(s[i := x], t) - (if x >= t then 1 else 0) == Meeting(s, t) - (if s[i] >= t then 1 else 0)
  {
    if i == 0 {
      assert s[0 := x][1..] == s[1..];
    } else {
      assert s[i := x][1..] == s[1..][i - 1 := x];
      OtherScore(s[1..], i - 1, x, t);
    }
  }

  /** The runs but the i-th are split evenly by the threshold. */
  predicate SplitEvenly(s: seq<real>, i: nat, t: real)
    requires i < |s|
  {
    2 * (Meeting(s, t) - (if s[i] >= t then 1 else 0)) == |s| - 1
  }

  /** The median meets the threshold when the i-th score is `x`. */
  predicate MeetsWith(s: seq<real>, i: nat, x: real, t: real)
    requires i < |s|
  {
    Median(s[i := x]) >= t
  }

  lemma {:induction false} MeetsWithOthers(s: seq<real>, i: nat, x: real, t: real)
    requires |s| % 2 == 1 && i < |s|
    ensures MeetsWith(s, i, x, t)
            <==> 2 * (Meeting(s, t) - (if s[i] >= t then 1 else 0) + (if x >= t then 1 else 0)) > |s|
  {
    MedianIsMajority(s[i := x], t);
    OtherScore(s, i, x, t);
  }

  /** One of an odd number of runs cannot move the median across a threshold, whatever its score, exactly
      when the others are not split evenly. */
  lemma {:induction false} OutlierIsDamped(s: seq<real>, i: nat, t: real)
    requires |s| % 2 == 1 && i < |s|
    ensures (forall x :: MeetsWith(s, i, x, t) <==> Median(s) >= t) <==> !SplitEvenly(s, i, t)
  {
    MedianIsMajority(s, t);
    if SplitEvenly(s, i, t) {
      MeetsWithOthers(s, i, t, t);
      MeetsWithOthers(s, i, t - 1.0, t);
      assert MeetsWith(s, i, t, t) && !MeetsWith(s, i, t - 1.0, t);
    } else {
      forall x ensures MeetsWith(s, i, x, t) <==> Median(s) >= t { MeetsWithOthers(s, i, x, t); }
    }
  }

  // ---- Live runs of a case ----

  const LIVE_RUNS_PER_CASE: nat := 3

  datatype Summary = Summary(weighted: real, missing: seq<string>, breakdown: int)

  /** How one live run ends: the workflow raises, some step reached no model, the result cannot be
      scored, or it is scored. */
  datatype RunOutcome = Crashed | Unserved | Unscorable | Scored(summary: Summary)

  /** The parts of a case that the live path checks before it runs anything. */
  datatype Case = NotAnObject | Case(threshold: Number, hasWorkflow: bool, inputsOk: bool, rubricOk: bool)

  datatype CaseResult =
    | Failed(completedRuns: nat)
    | Judged(weighted: real, missing: seq<string>, breakdown: int, threshold: real, passed: bool, runScores: seq<real>)

  predicate Passed(r: CaseResult) {
    r.Judged? && r.passed
  }

  function Scores(runs: seq<Summary>): seq<real> {
    seq(|runs|, i requires 0 <= i < |runs| => runs[i].weighted)
  }

  /** The first run with the median score. */
  function MedianRun(runs: seq<Summary>): (k: nat)
    requires |runs| % 2 == 1
    ensures k < |runs| && runs[k].weighted == Median(Scores(runs))
    ensures forall j | 0 <= j < k :: runs[j].weighted != Median(Scores(runs))
  {
    MedianIsMajority(Scores(runs), 0.0);
    FirstScore(runs, Median(Scores(runs)), 0)
  }

  function FirstScore(runs: seq<Summary>, score: real, from: nat): (k: nat)
    requires from <= |runs| && exists i | from <= i < |runs| :: Scores(runs)[i] == score
    ensures from <= k < |runs| && runs[k].weighted == score
    ensures forall j | from <= j < k :: runs[j].weighted != score
    decreases |runs| - from
  {
    if runs[from].weighted == score then from else FirstScore(runs, score, from + 1)
  }

  /** The verdict on the runs of a case. */
  predicate Verdict(runs: seq<Summary>, threshold: real)
    requires |runs| % 2 == 1
  {
    runs[MedianRun(runs)].missing == [] && Median(Scores(runs)) >= threshold
  }

  lemma {:induction false} FirstIsMedianRun(runs: seq<Summary>, k: nat)
    requires |runs| % 2 == 1 && k < |runs| && runs[k].weighted == Median(Scores(runs))
    requires forall j | 0 <= j < k :: runs[j].weighted != Median(Scores(runs))
    ensures k == MedianRun(runs)
  {
    var m := MedianRun(runs);
    assert !(m < k) && !(k < m);
  }

  /** The three live runs, if all of them complete. */
  function LiveRuns(runs: nat -> RunOutcome): seq<Summary>
    requires runs(0).Scored? && runs(1).Scored? && runs(2).Scored?
  {
    [runs(0).summary, runs(1).summary, runs(2).summary]
  }

  predicate Runnable(c: Case, global: Number) {
    c.Case? && ResolveThreshold(c.threshold, global).Ok? && c.hasWorkflow && c.inputsOk && c.rubricOk
  }

  ghost predicate AllScored(runs: nat -> RunOutcome, n: nat) {
    forall i | 0 <= i < n :: runs(i).Scored?
  }

  /** `score_case_live` */
  method ScoreCaseLive(c: Case, global: Number, runs: nat -> RunOutcome) returns (r: CaseResult)
    ensures r.Judged? <==> Runnable(c, global) && AllScored(runs, 3)
    ensures r.Failed? && Runnable(c, global) ==>
              r.completedRuns < 3 && AllScored(runs, r.completedRuns) && !runs(r.completedRuns).Scored?
    ensures r.Judged? ==>
              && |r.runScores| == 3
              && (forall i | 0 <= i < 3 :: r.runScores[i] == runs(i).summary.weighted)
              && r.weighted == Median(r.runScores)
              && r.threshold == ResolveThreshold(c.threshold, global).value
              && (exists i | 0 <= i < 3 ::
                    runs(i).summary == Summary(r.weighted, r.missing, r.breakdown)
                    && forall j | 0 <= j < i :: r.runScores[j] != r.weighted)
              && r.passed == (r.missing == [] && r.weighted >= r.threshold)
    ensures r.Judged? ==> r.passed == Verdict(LiveRuns(runs), r.threshold)
  {
    if c.NotAnObject? { return Failed(0); }
    var threshold := ResolveThreshold(c.threshold, global);
    if threshold.Err? || !c.hasWorkflow || !c.inputsOk || !c.rubricOk { return Failed(0); }
    var perRun: seq<Summary> := [];
    for run := 0 to LIVE_RUNS_PER_CASE
      invariant |perRun| == run
      invariant forall i | 0 <= i < run :: runs(i) == Scored(perRun[i])
    {
      match runs(run)
      case Scored(summary) => perRun := perRun + [summary];
      case _ => return Failed(run);
    }
    var scores := Scores(perRun);
    var median := Median(scores);
    MedianIsMajority(scores, median);
    var k := FindScore(perRun, median);
    assert runs(k).summary == perRun[k];
    FirstIsMedianRun(perRun, k);
    assert perRun == LiveRuns(runs);
    assert forall j | 0 <= j < k :: scores[j] == perRun[j].weighted;
    r := Judged(median, perRun[k].missing, perRun[k].breakdown, threshold.value,
                perRun[k].missing == [] && median >= threshold.value, scores);
  }

  /** The lookup of the run that produced the median. */
  method FindScore(runs: seq<Summary>, score: real) returns (k: nat)
    requires score in Scores(runs)
    ensures k < |runs| && runs[k].weighted == score
    ensures forall j | 0 <= j < k :: runs[j].weighted != score
  {
    k := 0;
    while runs[k].weighted != score
      invariant k < |runs|
      invariant forall j | 0 <= j < k :: runs[j].weighted != score
      decreases |runs| - k
    {
      assert exists i | 0 <= i < |runs| :: Scores(runs)[i] == score;
      k := k + 1;
    }
  }

  /** The verdict survives any one run: when all runs miss the same criteria and those but the i-th are
      not split evenly, no outcome of that run changes it. */
  lemma {:induction false} VerdictIsDamped(runs: seq<Summary>, i: nat, x: Summary, t: real)
    requires |runs| % 2 == 1 && i < |runs| && !SplitEvenly(Scores(runs), i, t)
    requires x.missing == runs[0].missing && forall r | r in runs :: r.missing == runs[0].missing
    ensures Verdict(runs[i := x], t) <==> Verdict(runs, t)
  {
    var s, changed := Scores(runs), runs[i := x];
    assert Scores(changed) == s[i := x.weighted];
    OutlierIsDamped(s, i, t);
    assert MeetsWith(s, i, x.weighted, t) <==> Median(s) >= t;
    assert forall k | 0 <= k < |runs| :: runs[k] in runs && changed[k].missing == runs[0].missing;
  }

  /** Without that the list of missing criteria can decide: it is the median run's alone. */
  lemma {:induction false} MissingCanDecide(score: real, t: real, name: string, breakdown: int)
    requires score >= t
    ensures var fine, short := Summary(score, [], breakdown), Summary(score, [name], breakdown);
            Verdict([fine, fine, fine], t) && !Verdict([fine, fine, fine][0 := short], t)
  {
    var fine, short := Summary(score, [], breakdown), Summary(score, [name], breakdown);
    var runs, changed := [fine, fine, fine], [short, fine, fine];
    assert runs[0 := short] == changed;
    MedianIsMajority(Scores(runs), t);
    MedianIsMajority(Scores(changed), t);
    assert changed[0].weighted == Median(Scores(changed));
  }

  /** `_report_and_exit`: the exit code is 0 exactly when every case passed. */
  method ReportAndExit(scored: seq<CaseResult>) returns (code: int)
    ensures code == 0 || code == 1
    ensures code == 0 <==> forall r | r in scored :: r.Judged? && r.passed
  {
    var anyFailed := false;
    for i := 0 to |scored|
      invariant anyFailed <==> exists j | 0 <= j < i :: !Passed(scored[j])
    {
      if !Passed(scored[i]) { anyFailed := true; }
    }
    code := if anyFailed then 1 else 0;
  }

  /** A live case that passes has a strict majority of runs at or above every bar that applies. */
  lemma {:induction false} PassNeedsMajority(own: Number, global: Number, scores: seq<real>, weighted: real)
    requires |scores| == 3 && ResolveThreshold(own, global).Ok?
    requires weighted == Median(scores)
    ensures weighted >= ResolveThreshold(own, global).value
            <==> 2 <= Meeting(scores, global.value) && (own.Missing? || 2 <= Meeting(scores, own.value))
  {
    ThresholdNeverLoosened(own, global, weighted);
    MedianIsMajority(scores, global.value);
    if own.Finite? { MedianIsMajority(scores, own.value); }
  }
}
