/** Choosing, promoting and removing the candidate values of every contracted artifact. */
module ArtifactNormalization {
  import opened ArtifactValidation
  import opened Claims
  import opened ContractParser
  import opened Dicts
  import opened Results

  /** The diagnostics of a value under a field name. */
  type Validator<!V> = (string, V) -> seq<Diagnostic>

  predicate Passes<V>(report: Validator<V>, values: Dict<string, V>, name: string) {
    Has(values, name) && report(name, Get(values, name).value) == []
  }

  /** The first of `names` that is present and passes. */
  function FirstPassing<V>(report: Validator<V>, values: Dict<string, V>, names: seq<string>): Option<string> {
    if names == [] then None
    else if Passes(report, values, names[0]) then Some(names[0])
    else FirstPassing(report, values, names[1..])
  }

  /** The diagnostics of the first `n` of `names`, as far as they are present. */
  function Complaints<V>(report: Validator<V>, values: Dict<string, V>, names: seq<string>, n: nat): seq<Diagnostic>
    requires n <= |names|
  {
    if n == 0 then []
    else
      Complaints(report, values, names, n - 1)
      + match Get(values, names[n - 1]) case Some(v) => report(names[n - 1], v) case None => []
  }

  predicate AnyPresent<V>(values: Dict<string, V>, names: seq<string>) {
    exists x | x in names :: Has(values, x)
  }

  /** What stands in the way of one contract. */
  function Problems<V>(report: Validator<V>, values: Dict<string, V>, item: Item<string, Contract>): seq<Diagnostic> {
    var names := ItemNames(item);
    if FirstPassing(report, values, names).Some? then []
    else if item.value.required || AnyPresent(values, names) then
      var found := Complaints(report, values, names, |names|);
      if found != [] then found else [Diagnostic(item.key, Missing)]
    else []
  }

  /** The problems of the first `n` contracts, in order. */
  function AllProblems(problems: Item<string, Contract> -> seq<Diagnostic>, table: Table, n: nat): seq<Diagnostic>
    requires n <= |table|
  {
    if n == 0 then [] else AllProblems(problems, table, n - 1) + problems(table[n - 1])
  }

  /** The value of the candidate chosen among `names`, if any. */
  function Chosen<V>(report: Validator<V>, values: Dict<string, V>, names: seq<string>): Option<V> {
    match FirstPassing(report, values, names)
    case Some(x) => Get(values, x)
    case None => None
  }

  /** `values` with the chosen candidate of the first `n` contracts under its canonical name. */
  function Promoted<V>(report: Validator<V>, values: Dict<string, V>, table: Table, n: nat): Dict<string, V>
    requires n <= |table|
  {
    if n == 0 then values
    else
      var before := Promoted(report, values, table, n - 1);
      match Chosen(report, values, ItemNames(table[n - 1]))
      case Some(v) => Put(before, table[n - 1].key, v)
      case None => before
  }

  function PopFirst<V>(d: Dict<string, V>, names: seq<string>, n: nat): Dict<string, V>
    requires n <= |names|
  {
    if n == 0 then d else Pop(PopFirst(d, names, n - 1), names[n - 1])
  }

  /** `d` without the aliases of the first `n` contracts. */
  function Pruned<V>(d: Dict<string, V>, table: Table, n: nat): Dict<string, V>
    requires n <= |table|
  {
    if n == 0 then d
    else PopFirst(Pruned(d, table, n - 1), table[n - 1].value.aliases, |table[n - 1].value.aliases|)
  }

  function Normalize<V>(report: Validator<V>, values: Dict<string, V>, table: Table)
    : Result<Dict<string, V>, seq<Diagnostic>>
  {
    var problems := AllProblems(item => Problems(report, values, item), table, |table|);
    if problems != [] then Err(problems) else Ok(Pruned(Promoted(report, values, table, |table|), table, |table|))
  }

  /** The validator in use: the only supported kind of contract is the code artifact. */
  function CodeReport(rules: Rules): Validator<Value> {
    (name, v) => ValueReport(rules, name, v)
  }

  /** `validate_and_normalize_artifacts` */
  method ValidateAndNormalizeArtifacts(rules: Rules, values: Dict<string, Value>, contracts: Table)
    returns (r: Result<Dict<string, Value>, seq<Diagnostic>>)
    requires forall item | item in contracts :: item.value.kind == CODE_ARTIFACT
    ensures r == Normalize(CodeReport(rules), values, contracts)
  {
    var normalized, problems := PromoteCandidates(rules, values, contracts, CodeReport(rules));
    if problems != [] { return Err(problems); }
    normalized := RemoveAliases(normalized, contracts);
    r := Ok(normalized);
  }

  /** What one more contract does to the values and to the problems, given how its candidates fared. */
  lemma {:induction false} NextContract(report: Validator<Value>, values: Dict<string, Value>, table: Table, i: nat,
                                        problem: Item<string, Contract> -> seq<Diagnostic>, selected: Option<string>,
                                        present: bool, found: seq<Diagnostic>)
    requires i < |table| && forall item :: problem(item) == Problems(report, values, item)
    requires var names := ItemNames(table[i]);
             && selected == FirstPassing(report, values, names) && (selected.Some? ==> Has(values, selected.value))
             && (selected.None? ==>
                   present == AnyPresent(values, names) && found == Complaints(report, values, names, |names|))
    ensures Promoted(report, values, table, i + 1)
            == if selected.Some? then
                 Put(Promoted(report, values, table, i), table[i].key, Get(values, selected.value).value)
               else Promoted(report, values, table, i)
    ensures AllProblems(problem, table, i + 1)
            == AllProblems(problem, table, i)
               + if selected.None? && (table[i].value.required || present) then
                   (if found != [] then found else [Diagnostic(table[i].key, Missing)])
                 else []
  {
  }

  /** The main loop of the normaliser. */
  method PromoteCandidates(rules: Rules, values: Dict<string, Value>, contracts: Table, ghost report: Validator<Value>)
    returns (normalized: Dict<string, Value>, problems: seq<Diagnostic>)
    requires report == CodeReport(rules)
    ensures normalized == Promoted(report, values, contracts, |contracts|)
    ensures problems == AllProblems(item => Problems(report, values, item), contracts, |contracts|)
  {
    ghost var problem := (item: Item<string, Contract>) => Problems(report, values, item);
    normalized, problems := values, [];
    for i := 0 to |contracts|
      invariant normalized == Promoted(report, values, contracts, i)
      invariant problems == AllProblems(problem, contracts, i)
    {
      var Item(field, contract) := contracts[i];
      var selected, present, found := SelectCandidate(rules, values, NamesOf(field, contract), report);
      NextContract(report, values, contracts, i, problem, selected, present, found);
      if selected.Some? {
        normalized := Put(normalized, field, Get(values, selected.value).value);
      } else if contract.required || present {
        problems := problems + if found != [] then found else [Diagnostic(field, Missing)];
      }
    }
  }

  /** The last loop of the normaliser. */
  method RemoveAliases<V>(d: Dict<string, V>, contracts: Table) returns (r: Dict<string, V>)
    ensures r == Pruned(d, contracts, |contracts|)
  {
    r := d;
    for i := 0 to |contracts|
      invariant r == Pruned(d, contracts, i)
    {
      ghost var before := r;
      var aliases := contracts[i].value.aliases;
      for n := 0 to |aliases|
        invariant r == PopFirst(before, aliases, n)
      {
        r := Pop(r, aliases[n]);
      }
    }
  }

  /** The inner loop of the normaliser: tries the present candidates in order until one passes. */
  method SelectCandidate(rules: Rules, values: Dict<string, Value>, names: seq<string>, ghost report: Validator<Value>)
    returns (selected: Option<string>, present: bool, found: seq<Diagnostic>)
    requires report == CodeReport(rules)
    ensures selected == FirstPassing(report, values, names)
    ensures selected.Some? ==> Has(values, selected.value)
    ensures selected.None?
            ==> present == AnyPresent(values, names) && found == Complaints(report, values, names, |names|)
  {
    present, found := false, [];
    for n := 0 to |names|
      invariant found == Complaints(report, values, names, n)
      invariant present <==> exists j | 0 <= j < n :: Has(values, names[j])
      invariant FirstPassing(report, values, names) == FirstPassing(report, values, names[n..])
    {
      assert names[n..][1..] == names[n + 1..];
      var value := Get(values, names[n]);
      if value.Some? {
        present := true;
        var ds := ValidateCodeArtifact(rules, names[n], value.value);
        assert ds == report(names[n], value.value);
        if ds == [] { return Some(names[n]), true, found; }
        found := found + ds;
      }
    }
    selected := None;
  }

  // ---- When normalisation succeeds ----

  /** The candidate chosen is the first one, canonical name before aliases, that is present and passes. */
  lemma {:induction false} FirstPassingIsFirst<V>(report: Validator<V>, values: Dict<string, V>, names: seq<string>)
    ensures match FirstPassing(report, values, names)
            case None => forall x | x in names :: !Passes(report, values, x)
            case Some(x) =>
              exists k | 0 <= k < |names| ::
                names[k] == x && Passes(report, values, x) && forall j | 0 <= j < k :: !Passes(report, values, names[j])
  {
    if names != [] {
      var rest := names[1..];
      FirstPassingIsFirst(report, values, rest);
      assert names == [names[0]] + rest;
      if Passes(report, values, names[0]) {
        assert names[0] == FirstPassing(report, values, names).value;
      } else if FirstPassing(report, values, rest).Some? {
        var x := FirstPassing(report, values, rest).value;
        var k :| 0 <= k < |rest| && rest[k] == x && forall j | 0 <= j < k :: !Passes(report, values, rest[j]);
        forall j | 0 <= j < k + 1 ensures !Passes(report, values, names[j]) {
          if j > 0 { assert names[j] == rest[j - 1]; }
        }
        assert names[k + 1] == x;
      }
    }
  }

  ghost predicate Satisfied<V>(report: Validator<V>, values: Dict<string, V>, item: Item<string, Contract>) {
    || (exists x | x in ItemNames(item) :: Passes(report, values, x))
    || (!item.value.required && forall x | x in ItemNames(item) :: !Has(values, x))
  }

  lemma {:induction false} ProblemsMeanUnsatisfied<V>(report: Validator<V>, values: Dict<string, V>,
                                                      item: Item<string, Contract>)
    ensures Problems(report, values, item) == [] <==> Satisfied(report, values, item)
  {
    FirstPassingIsFirst(report, values, ItemNames(item));
  }

  lemma {:induction false} NoProblems(problems: Item<string, Contract> -> seq<Diagnostic>, table: Table, n: nat)
    requires n <= |table|
    ensures AllProblems(problems, table, n) == [] <==> forall i | 0 <= i < n :: problems(table[i]) == []
  {
    if n != 0 { NoProblems(problems, table, n - 1); }
  }

  /** Normalisation succeeds exactly when every contract has a passing candidate, or is optional
      and has no candidate at all. */
  lemma {:induction false} SucceedsWhenSatisfied<V>(report: Validator<V>, values: Dict<string, V>, table: Table)
    ensures Normalize(report, values, table).Ok? <==> forall item | item in table :: Satisfied(report, values, item)
  {
    NoProblems(item => Problems(report, values, item), table, |table|);
    forall item ensures Problems(report, values, item) == [] <==> Satisfied(report, values, item) {
      ProblemsMeanUnsatisfied(report, values, item);
    }
    assert forall item :: item in table <==> exists i | 0 <= i < |table| :: table[i] == item;
  }

  lemma {:induction false} NoProblemAt<V>(report: Validator<V>, values: Dict<string, V>, table: Table, i: nat)
    requires Normalize(report, values, table).Ok? && i < |table|
    ensures Problems(report, values, table[i]) == []
    ensures Chosen(report, values, ItemNames(table[i])).None? ==> forall x | x in ItemNames(table[i]) :: !Has(values, x)
  {
    var problems := (item: Item<string, Contract>) => Problems(report, values, item);
    NoProblems(problems, table, |table|);
    assert problems(table[i]) == [];
    ProblemsMeanUnsatisfied(report, values, table[i]);
    FirstPassingIsFirst(report, values, ItemNames(table[i]));
  }

  // ---- What is reported otherwise ----

  lemma {:induction false} ComplaintsMember<V>(report: Validator<V>, values: Dict<string, V>, names: seq<string>,
                                               n: nat, d: Diagnostic)
    requires n <= |names|
    ensures d in Complaints(report, values, names, n)
            <==> exists k | 0 <= k < n :: Complains(report, values, names[k], d)
  {
    if n != 0 { ComplaintsMember(report, values, names, n - 1, d); }
  }

  /** The diagnostic is one about the value of this name. */
  predicate Complains<V>(report: Validator<V>, values: Dict<string, V>, name: string, d: Diagnostic) {
    Has(values, name) && d in report(name, Get(values, name).value)
  }

  /** What is reported of one contract: nothing if a candidate passes; else what is wrong with the candidates
      that are present, or, if none is, that a required artifact is missing. */
  lemma {:induction false} ProblemsMean<V>(report: Validator<V>, values: Dict<string, V>, item: Item<string, Contract>,
                                           d: Diagnostic)
    ensures var names := [item.key] + item.value.aliases;
            d in Problems(report, values, item)
            <==> && (forall x | x in names :: !Passes(report, values, x))
                 && if exists x | x in names :: Has(values, x) then
                      exists x | x in names && Has(values, x) :: d in report(x, Get(values, x).value)
                    else item.value.required && d == Diagnostic(item.key, Missing)
  {
    var names := [item.key] + item.value.aliases;
    FirstPassingIsFirst(report, values, names);
    ComplaintsMember(report, values, names, |names|, d);
    if x :| x in names && Has(values, x) {
      if report(x, Get(values, x).value) != [] {
        var c := report(x, Get(values, x).value)[0];
        ComplaintsMember(report, values, names, |names|, c);
      }
    } else {
      NoComplaints(report, values, names, |names|);
    }
  }

  lemma {:induction false} NoComplaints<V>(report: Validator<V>, values: Dict<string, V>, names: seq<string>, n: nat)
    requires n <= |names| && forall x | x in names :: !Has(values, x)
    ensures Complaints(report, values, names, n) == []
  {
    if n != 0 {
      NoComplaints(report, values, names, n - 1);
      assert !Has(values, names[n - 1]);
    }
  }

  lemma {:induction false} AllProblemsMember(problems: Item<string, Contract> -> seq<Diagnostic>, table: Table, n: nat,
                                             d: Diagnostic)
    requires n <= |table|
    ensures d in AllProblems(problems, table, n) <==> exists i | 0 <= i < n :: d in problems(table[i])
  {
    if n != 0 { AllProblemsMember(problems, table, n - 1, d); }
  }

  /** A refusal lists the problems of all contracts and nothing else. */
  lemma {:induction false} RefusalListsProblems<V>(report: Validator<V>, values: Dict<string, V>, table: Table,
                                                   d: Diagnostic)
    requires Normalize(report, values, table).Err?
    ensures d in Normalize(report, values, table).error
            <==> exists i | 0 <= i < |table| :: d in Problems(report, values, table[i])
  {
    AllProblemsMember(item => Problems(report, values, item), table, |table|, d);
  }

  // ---- What the result holds ----

  /** The value chosen is that of the first candidate that passes. */
  lemma {:induction false} ChosenIsFirst<V>(report: Validator<V>, values: Dict<string, V>, names: seq<string>)
    ensures match Chosen(report, values, names)
            case None => forall x | x in names :: !Passes(report, values, x)
            case Some(v) =>
              exists k | 0 <= k < |names| ::
                && Get(values, names[k]) == Some(v) && report(names[k], v) == []
                && forall j | 0 <= j < k :: !Passes(report, values, names[j])
  {
    if names != [] && !Passes(report, values, names[0]) {
      var rest := names[1..];
      ChosenIsFirst(report, values, rest);
      assert names == [names[0]] + rest;
      if Chosen(report, values, rest).Some? {
        var v := Chosen(report, values, rest).value;
        var k :| 0 <= k < |rest| && Get(values, rest[k]) == Some(v) && report(rest[k], v) == []
                 && forall j | 0 <= j < k :: !Passes(report, values, rest[j]);
        assert names[k + 1] == rest[k];
        assert forall j | 0 <= j < k :: names[j + 1] == rest[j];
        assert forall j | 0 < j < k + 1 :: names[j] == rest[j - 1];
      }
    }
  }

  lemma {:induction false} GetPopFirst<V>(d: Dict<string, V>, names: seq<string>, n: nat, x: string)
    requires n <= |names|
    ensures Get(PopFirst(d, names, n), x) == if exists j | 0 <= j < n :: names[j] == x then None else Get(d, x)
  {
    if n != 0 {
      GetPopFirst(d, names, n - 1, x);
      GetPop(PopFirst(d, names, n - 1), names[n - 1], x);
    }
  }

  predicate IsAlias(table: Table, n: nat, x: string)
    requires n <= |table|
  {
    exists i | 0 <= i < n :: x in table[i].value.aliases
  }

  lemma {:induction false} GetPruned<V>(d: Dict<string, V>, table: Table, n: nat, x: string)
    requires n <= |table|
    ensures Get(Pruned(d, table, n), x) == if IsAlias(table, n, x) then None else Get(d, x)
  {
    if n != 0 {
      GetPruned(d, table, n - 1, x);
      var aliases := table[n - 1].value.aliases;
      GetPopFirst(Pruned(d, table, n - 1), aliases, |aliases|, x);
      assert x in aliases <==> exists j | 0 <= j < |aliases| :: aliases[j] == x;
    }
  }

  lemma {:induction false} PromotedElsewhere<V>(report: Validator<V>, values: Dict<string, V>, table: Table, n: nat,
                                                x: string)
    requires n <= |table|
    requires forall i | 0 <= i < n :: table[i].key != x
    ensures Get(Promoted(report, values, table, n), x) == Get(values, x)
  {
    if n != 0 {
      PromotedElsewhere(report, values, table, n - 1, x);
      match Chosen(report, values, ItemNames(table[n - 1]))
      case Some(v) => GetPut(Promoted(report, values, table, n - 1), table[n - 1].key, v, x);
      case None =>
    }
  }

  lemma {:induction false} PromotedAt<V>(report: Validator<V>, values: Dict<string, V>, table: Table, n: nat, i: nat)
    requires i < n <= |table|
    requires forall j | 0 <= j < n && j != i :: table[j].key != table[i].key
    ensures var chosen := Chosen(report, values, ItemNames(table[i]));
            Get(Promoted(report, values, table, n), table[i].key)
            == if chosen.Some? then chosen else Get(values, table[i].key)
  {
    var before := Promoted(report, values, table, n - 1);
    if i != n - 1 {
      PromotedAt(report, values, table, n - 1, i);
    } else {
      PromotedElsewhere(report, values, table, n - 1, table[i].key);
    }
    match Chosen(report, values, ItemNames(table[n - 1]))
    case Some(v) => GetPut(before, table[n - 1].key, v, table[i].key);
    case None =>
  }

  lemma {:induction false} NameElsewhere(table: Table, i: nat, j: nat, x: string)
    requires NamesDisjoint(table) && i < |table| && j < |table| && i != j
    requires x in ItemNames(table[i])
    ensures x !in ItemNames(table[j])
  {
    var names := ItemNames;
    assert names(table[i]) == ItemNames(table[i]) && names(table[j]) == ItemNames(table[j]);
    assert i < j ==> Disjoint(names(table[j]), names(table[i]));
    assert j < i ==> Disjoint(names(table[i]), names(table[j]));
  }

  lemma {:induction false} OwnAliasesDiffer(table: Table, i: nat)
    requires NamesDisjoint(table) && i < |table|
    ensures table[i].key !in table[i].value.aliases
  {
    var names := ItemNames;
    var own, aliases := names(table[i]), table[i].value.aliases;
    assert own == ItemNames(table[i]) && NoDuplicates(own);
    forall k | 0 <= k < |aliases| ensures aliases[k] != own[0] {
      assert aliases[k] == own[k + 1];
    }
  }

  lemma {:induction false} CanonicalIsNoAlias(table: Table, i: nat)
    requires NamesDisjoint(table) && i < |table|
    ensures !IsAlias(table, |table|, table[i].key)
    ensures forall j | 0 <= j < |table| && j != i :: table[j].key != table[i].key
  {
    var key := table[i].key;
    assert ItemNames(table[i])[0] == key;
    OwnAliasesDiffer(table, i);
    forall j | 0 <= j < |table| && j != i ensures key !in table[j].value.aliases && table[j].key != key {
      NameElsewhere(table, i, j, key);
      var other := ItemNames(table[j]);
      assert other[0] == table[j].key && other == [table[j].key] + table[j].value.aliases;
    }
  }

  lemma {:induction false} CanonicalContents<V>(report: Validator<V>, values: Dict<string, V>, table: Table, i: nat)
    requires NamesDisjoint(table)
    requires Normalize(report, values, table).Ok? && i < |table|
    ensures Get(Normalize(report, values, table).value, table[i].key) == Chosen(report, values, ItemNames(table[i]))
  {
    var key := table[i].key;
    GetPruned(Promoted(report, values, table, |table|), table, |table|, key);
    CanonicalIsNoAlias(table, i);
    PromotedAt(report, values, table, |table|, i);
    NoProblemAt(report, values, table, i);
    assert ItemNames(table[i])[0] == key;
    assert key in ItemNames(table[i]);
  }

  /** What a successful normalisation returns, for a table whose names are disjoint: under each
      canonical name the first passing candidate, no alias, and everything else unchanged. */
  lemma {:induction false} NormalizedContents<V>(report: Validator<V>, values: Dict<string, V>, table: Table, x: string)
    requires NamesDisjoint(table)
    requires Normalize(report, values, table).Ok?
    ensures var r := Normalize(report, values, table).value;
            && (forall i | 0 <= i < |table| && table[i].key == x ::
                  Get(r, x) == Chosen(report, values, ItemNames(table[i])))
            && (IsAlias(table, |table|, x) ==> !Has(r, x))
            && (!IsAlias(table, |table|, x) && (forall i | 0 <= i < |table| :: table[i].key != x)
               ==> Get(r, x) == Get(values, x))
  {
    GetPruned(Promoted(report, values, table, |table|), table, |table|, x);
    forall i | 0 <= i < |table| && table[i].key == x
      ensures Get(Normalize(report, values, table).value, x) == Chosen(report, values, ItemNames(table[i]))
    {
      CanonicalContents(report, values, table, i);
    }
    if forall i | 0 <= i < |table| :: table[i].key != x {
      PromotedElsewhere(report, values, table, |table|, x);
    }
  }

  lemma {:induction false} PromotedIsDict<V>(report: Validator<V>, values: Dict<string, V>, table: Table, n: nat)
    requires n <= |table| && IsDict(values)
    ensures IsDict(Promoted(report, values, table, n))
  {
    if n != 0 {
      PromotedIsDict(report, values, table, n - 1);
      match Chosen(report, values, ItemNames(table[n - 1]))
      case Some(v) => PutKeepsDict(Promoted(report, values, table, n - 1), table[n - 1].key, v);
      case None =>
    }
  }

  lemma {:induction false} PopFirstIsDict<V>(d: Dict<string, V>, names: seq<string>, n: nat)
    requires n <= |names| && IsDict(d)
    ensures IsDict(PopFirst(d, names, n))
  {
    if n != 0 {
      PopFirstIsDict(d, names, n - 1);
      PopKeepsDict(PopFirst(d, names, n - 1), names[n - 1]);
    }
  }

  lemma {:induction false} PrunedIsDict<V>(d: Dict<string, V>, table: Table, n: nat)
    requires n <= |table| && IsDict(d)
    ensures IsDict(Pruned(d, table, n))
  {
    if n != 0 {
      PrunedIsDict(d, table, n - 1);
      var aliases := table[n - 1].value.aliases;
      PopFirstIsDict(Pruned(d, table, n - 1), aliases, |aliases|);
    }
  }

  /** The normalised values hold no key twice. */
  lemma {:induction false} NormalizedIsDict<V>(report: Validator<V>, values: Dict<string, V>, table: Table)
    requires IsDict(values) && Normalize(report, values, table).Ok?
    ensures IsDict(Normalize(report, values, table).value)
  {
    PromotedIsDict(report, values, table, |table|);
    PrunedIsDict(Promoted(report, values, table, |table|), table, |table|);
  }

  // ---- Why the parser keeps names disjoint ----

  lemma {:induction false} PromotedKeeps<V>(report: Validator<V>, values: Dict<string, V>, table: Table, n: nat,
                                            x: string)
    requires n <= |table|
    ensures Has(values, x) ==> Has(Promoted(report, values, table, n), x)
    ensures (exists i | 0 <= i < n :: table[i].key == x && Chosen(report, values, ItemNames(table[i])).Some?)
            ==> Has(Promoted(report, values, table, n), x)
  {
    if n != 0 {
      PromotedKeeps(report, values, table, n - 1, x);
      match Chosen(report, values, ItemNames(table[n - 1]))
      case Some(v) => GetPut(Promoted(report, values, table, n - 1), table[n - 1].key, v, x);
      case None =>
    }
  }

  /** For any table at all, a contract that has a passing candidate keeps its canonical field
      exactly when no contract of the table uses that name as an alias. */
  lemma {:induction false} CanonicalFieldSurvives<V>(report: Validator<V>, values: Dict<string, V>, table: Table,
                                                     i: nat)
    requires Normalize(report, values, table).Ok?
    requires i < |table| && Chosen(report, values, ItemNames(table[i])).Some?
    ensures Has(Normalize(report, values, table).value, table[i].key) <==> !IsAlias(table, |table|, table[i].key)
  {
    PromotedKeeps(report, values, table, |table|, table[i].key);
    GetPruned(Promoted(report, values, table, |table|), table, |table|, table[i].key);
  }

  // ---- Normalising twice ----

  ghost predicate IgnoresName<V(!new)>(report: Validator<V>) {
    forall x, y, v :: report(x, v) == [] <==> report(y, v) == []
  }

  lemma {:induction false} CodeArtifactIgnoresName(rules: Rules)
    ensures IgnoresName(CodeReport(rules))
  {
    forall x, y, v ensures ValueReport(rules, x, v) == [] <==> ValueReport(rules, y, v) == [] {
      AcceptedValues(rules, x, v);
      AcceptedValues(rules, y, v);
    }
  }

  /** In the normalised values the canonical name is the only candidate left, and it passes. */
  lemma {:induction false} OnlyCanonicalLeft<V(!new)>(report: Validator<V>, values: Dict<string, V>, table: Table,
                                                      i: nat)
    requires NamesDisjoint(table) && IgnoresName(report)
    requires Normalize(report, values, table).Ok? && i < |table|
    ensures var r := Normalize(report, values, table).value;
            && Chosen(report, r, ItemNames(table[i])) == Chosen(report, values, ItemNames(table[i]))
               == Get(r, table[i].key)
            && Problems(report, r, table[i]) == []
  {
    var r := Normalize(report, values, table).value;
    var names := ItemNames(table[i]);
    assert names[0] == table[i].key && names[1..] == table[i].value.aliases;
    forall x | x in names[1..] ensures !Has(r, x) {
      NormalizedContents(report, values, table, x);
    }
    NormalizedContents(report, values, table, names[0]);
    FirstPassingIsFirst(report, values, names);
    FirstPassingIsFirst(report, r, names[1..]);
    NoProblemAt(report, values, table, i);
    ProblemsMeanUnsatisfied(report, r, table[i]);
    assert names == [names[0]] + names[1..];
  }

  lemma {:induction false} PromotingAgain<V>(report: Validator<V>, r: Dict<string, V>, table: Table, n: nat)
    requires n <= |table|
    requires forall i | 0 <= i < n :: Chosen(report, r, ItemNames(table[i])) == Get(r, table[i].key)
    ensures Promoted(report, r, table, n) == r
  {
    if n != 0 {
      PromotingAgain(report, r, table, n - 1);
      var v := Get(r, table[n - 1].key);
      if v.Some? { PutSame(r, table[n - 1].key, v.value); }
    }
  }

  lemma {:induction false} PoppingAbsent<V>(d: Dict<string, V>, names: seq<string>, n: nat)
    requires n <= |names| && forall x | x in names :: !Has(d, x)
    ensures PopFirst(d, names, n) == d
  {
    if n != 0 {
      PoppingAbsent(d, names, n - 1);
      PopAbsent(d, names[n - 1]);
    }
  }

  lemma {:induction false} PruningAgain<V>(d: Dict<string, V>, table: Table, n: nat)
    requires n <= |table| && forall x :: IsAlias(table, n, x) ==> !Has(d, x)
    ensures Pruned(d, table, n) == d
  {
    if n != 0 {
      forall x ensures IsAlias(table, n - 1, x) ==> IsAlias(table, n, x) {}
      PruningAgain(d, table, n - 1);
      var aliases := table[n - 1].value.aliases;
      forall x | x in aliases ensures !Has(d, x) { assert IsAlias(table, n, x); }
      PoppingAbsent(d, aliases, |aliases|);
    }
  }

  /** Normalising a normalised result changes nothing, not even the order of its keys. */
  lemma {:induction false} NormalizeIsIdempotent<V(!new)>(report: Validator<V>, values: Dict<string, V>, table: Table)
    requires NamesDisjoint(table) && IgnoresName(report)
    requires Normalize(report, values, table).Ok?
    ensures Normalize(report, Normalize(report, values, table).value, table) == Normalize(report, values, table)
  {
    var r := Normalize(report, values, table).value;
    forall i | 0 <= i < |table|
      ensures Problems(report, r, table[i]) == []
      ensures Chosen(report, r, ItemNames(table[i])) == Get(r, table[i].key)
    {
      OnlyCanonicalLeft(report, values, table, i);
    }
    NoProblems(item => Problems(report, r, item), table, |table|);
    PromotingAgain(report, r, table, |table|);
    forall x ensures IsAlias(table, |table|, x) ==> !Has(r, x) { NormalizedContents(report, values, table, x); }
    PruningAgain(r, table, |table|);
  }

  /** From declarations to normalised values: with a table the parser accepted, a successful
      normalisation leaves the first passing candidate under each canonical name, no alias and every
      other key as it was, and doing it again changes nothing. */
  lemma {:induction false} ParsedContractsNormalize(rules: Rules, rows: seq<Row>, table: Table,
                                                    values: Dict<string, Value>, x: string)
    requires Accepted(rows) && Lists(table, rows, |rows|)
    requires Normalize(CodeReport(rules), values, table).Ok?
    ensures var r := Normalize(CodeReport(rules), values, table).value;
            && (forall i | 0 <= i < |table| && table[i].key == x ::
                  !IsAlias(table, |table|, x) && Get(r, x) == Chosen(CodeReport(rules), values, ItemNames(table[i])))
            && (IsAlias(table, |table|, x) ==> !Has(r, x))
            && (!IsAlias(table, |table|, x) && (forall i | 0 <= i < |table| :: table[i].key != x)
               ==> Get(r, x) == Get(values, x))
            && Normalize(CodeReport(rules), r, table) == Ok(r)
  {
    var report := CodeReport(rules);
    ParsedNamesDisjoint(rows, table);
    CodeArtifactIgnoresName(rules);
    NormalizedContents(report, values, table, x);
    forall i | 0 <= i < |table| && table[i].key == x ensures !IsAlias(table, |table|, x) {
      CanonicalIsNoAlias(table, i);
    }
    NormalizeIsIdempotent(report, values, table);
  }

  // ---- Expected keys ----

  lemma {:induction false} NextNames(keys: seq<string>, table: Table, i: nat,
                                     names: Item<string, Contract> -> seq<string>)
    requires i < |table| && names == ItemNames
    ensures keys + AllNames(table, names, i + 1)
            == keys + AllNames(table, names, i) + [table[i].key] + table[i].value.aliases
  {
    var before, own := AllNames(table, names, i), [table[i].key] + table[i].value.aliases;
    assert names(table[i]) == ItemNames(table[i]) == own;
    assert AllNames(table, names, i + 1) == before + own;
    assert keys + (before + own) == keys + before + [table[i].key] + table[i].value.aliases;
  }

  /** `expected_output_keys`: the declared outputs, then every contract name not listed yet. */
  method ExpectedOutputKeys<V>(outputs: Dict<string, V>, contracts: Table) returns (keys: seq<string>)
    requires IsDict(outputs)
    ensures keys == Dedup(Keys(outputs) + AllNames(contracts, ItemNames, |contracts|))
  {
    keys := Keys(outputs);
    ghost var names := ItemNames;
    DedupDistinct(keys);
    ghost var seen := keys;
    assert seen + [] == seen;
    for i := 0 to |contracts|
      invariant seen == Keys(outputs) + AllNames(contracts, names, i)
      invariant keys == Dedup(seen)
    {
      var Item(canonical, contract) := contracts[i];
      if canonical !in keys { keys := keys + [canonical]; }
      DedupStep(seen, canonical);
      keys := AddMissing(keys, contract.aliases, seen + [canonical]);
      NextNames(Keys(outputs), contracts, i, names);
      seen := seen + [canonical] + contract.aliases;
    }
  }

  /** The inner loop over the aliases of one contract. */
  method AddMissing(keys: seq<string>, names: seq<string>, ghost seen: seq<string>) returns (r: seq<string>)
    requires keys == Dedup(seen)
    ensures r == Dedup(seen + names)
  {
    r := keys;
    assert seen + names[..0] == seen;
    for n := 0 to |names|
      invariant r == Dedup(seen + names[..n])
    {
      if names[n] !in r { r := r + [names[n]]; }
      DedupStep(seen + names[..n], names[n]);
      assert seen + names[..n] + [names[n]] == seen + names[..n + 1];
    }
    assert names[..|names|] == names;
  }

  lemma {:induction false} DedupStep(s: seq<string>, x: string)
    ensures Dedup(s + [x]) == if x in Dedup(s) then Dedup(s) else Dedup(s) + [x]
  {
    assert (s + [x])[..|s|] == s;
  }

  /** The expected keys hold no key twice, start with the declared outputs in order, and list
      exactly the declared outputs and the names of the contracts. */
  lemma {:induction false} ExpectedKeys<V>(outputs: Dict<string, V>, table: Table, x: string)
    requires IsDict(outputs)
    ensures var keys := Dedup(Keys(outputs) + AllNames(table, ItemNames, |table|));
            && NoDuplicates(keys)
            && Keys(outputs) <= keys
            && (x in keys <==> Has(outputs, x) || exists i | 0 <= i < |table| :: x in ItemNames(table[i]))
  {
    var all := AllNames(table, ItemNames, |table|);
    DedupIsDistinct(Keys(outputs) + all);
    DedupPrefix(Keys(outputs), all);
    AllNamesMember(table, ItemNames, |table|, x);
    HasKey(outputs, x);
  }

  /** If the contracts bind to declared outputs and the step returned only expected keys, the
      normalised values lie within the declared outputs. */
  lemma {:induction false} NormalizedKeysAreDeclared<V, W>(report: Validator<V>, values: Dict<string, V>, table: Table,
                                                          outputs: Dict<string, W>, x: string)
    requires NamesDisjoint(table) && Normalize(report, values, table).Ok?
    requires IsDict(outputs) && Unbound(table, outputs) == []
    requires forall k | Has(values, k) :: k in Dedup(Keys(outputs) + AllNames(table, ItemNames, |table|))
    requires Has(Normalize(report, values, table).value, x)
    ensures Has(outputs, x)
  {
    NormalizedContents(report, values, table, x);
    if forall i | 0 <= i < |table| :: table[i].key != x {
      ExpectedKeys(outputs, table, x);
    }
  }
}
