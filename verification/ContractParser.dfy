/** The parser of artifact-contract declarations and the table of names it builds. */
module ContractParser {
  import opened Claims
  import opened Dicts
  import opened Results
  import opened Text

  const CODE_ARTIFACT := "code_artifact"

  datatype Contract = Contract(kind: string, required: bool, aliases: seq<string>)

  type Table = Dict<string, Contract>

  /** A value loaded from YAML, as far as the parser looks into it. */
  datatype Yaml =
    | Null
    | Str(text: string)
    | Flag(on: bool)
    | Items(items: seq<Yaml>)
    | Mapping(rows: seq<Row>)
    | Scalar(id: int)

  datatype Row = Row(key: Yaml, value: Yaml)

  datatype ParseError =
    | NotAMapping
    | BadFieldName
    | BadDeclaration(field: string)
    | UnknownFields(field: string)
    | UnhashableKind(field: string)
    | BadKind(field: string)
    | BadRequired(field: string)
    | BadAliases(field: string)
    | SelfAlias(field: string)
    | Collision(field: string, name: string, owner: string)

  datatype Declaration = Declaration(field: string, contract: Contract)

  function Lookup(rows: seq<Row>, name: string): Option<Yaml> {
    if rows == [] then None
    else if rows[0].key == Str(name) then Some(rows[0].value)
    else Lookup(rows[1..], name)
  }

  function Texts(items: seq<Yaml>): (r: seq<string>)
    requires forall y | y in items :: y.Str?
    ensures |r| == |items| && forall i | 0 <= i < |items| :: r[i] == items[i].text
  {
    seq(|items|, i requires 0 <= i < |items| => items[i].text)
  }

  /** `dict.fromkeys(s)`: keeps the first occurrence of every element. */
  function Dedup<T(==)>(s: seq<T>): seq<T> {
    if s == [] then []
    else
      var kept := Dedup(s[..|s| - 1]);
      if s[|s| - 1] in kept then kept else kept + [s[|s| - 1]]
  }

  lemma {:induction false} DedupIsDistinct<T>(s: seq<T>)
    ensures NoDuplicates(Dedup(s))
    ensures forall x :: x in Dedup(s) <==> x in s
  {
    if s != [] {
      DedupIsDistinct(s[..|s| - 1]);
      assert s == s[..|s| - 1] + [s[|s| - 1]];
    }
  }

  /** What comes first stays first: de-duplicating more of a list only appends. */
  lemma {:induction false} DedupGrows<T>(s: seq<T>, n: nat)
    requires n <= |s|
    ensures Dedup(s[..n]) <= Dedup(s)
  {
    if n == |s| {
      assert s[..n] == s;
    } else {
      DedupGrows(s[..|s| - 1], n);
      assert s[..|s| - 1][..n] == s[..n];
    }
  }

  lemma {:induction false} DedupDistinct<T>(s: seq<T>)
    requires NoDuplicates(s)
    ensures Dedup(s) == s
  {
    if s != [] {
      var init, last := s[..|s| - 1], s[|s| - 1];
      assert forall i | 0 <= i < |init| :: init[i] == s[i];
      DedupDistinct(init);
      assert last !in init;
      assert s == init + [last];
    }
  }

  lemma {:induction false} DedupPrefix<T>(a: seq<T>, b: seq<T>)
    requires NoDuplicates(a)
    ensures a <= Dedup(a + b)
  {
    DedupGrows(a + b, |a|);
    DedupDistinct(a);
    assert (a + b)[..|a|] == a;
  }

  predicate IsKnownField(key: Yaml) {
    key == Str("kind") || key == Str("required") || key == Str("aliases")
  }

  predicate IsAliasList(y: Yaml) {
    y.Items? && forall a | a in y.items :: a.Str? && !Blank(a.text)
  }

  /** The checks a single declaration must pass before its names are looked at. */
  function Check(row: Row): Result<Declaration, ParseError> {
    if !row.key.Str? || Blank(row.key.text) then Err(BadFieldName)
    else
      var field := row.key.text;
      if !row.value.Str? && !row.value.Mapping? then Err(BadDeclaration(field))
      else
        var rows := if row.value.Str? then [Row(Str("kind"), row.value)] else row.value.rows;
        var kind, required := Lookup(rows, "kind"), Lookup(rows, "required");
        var aliases := match Lookup(rows, "aliases") case Some(y) => y case None => Items([]);
        if exists r | r in rows :: !IsKnownField(r.key) then Err(UnknownFields(field))
        else if kind.Some? && (kind.value.Items? || kind.value.Mapping?) then Err(UnhashableKind(field))
        else if kind != Some(Str(CODE_ARTIFACT)) then Err(BadKind(field))
        else if required.Some? && !required.value.Flag? then Err(BadRequired(field))
        else if !IsAliasList(aliases) then Err(BadAliases(field))
        else
          var needed := match required case Some(y) => y.on case None => true;
          Ok(Declaration(field, Contract(CODE_ARTIFACT, needed, Dedup(Texts(aliases.items)))))
  }

  predicate WellFormed(row: Row) {
    Check(row).Ok?
  }

  // ---- What a declaration means ----

  /** A mapping loaded from YAML holds no key twice. */
  ghost predicate IsMapping(rows: seq<Row>) {
    forall i, j | 0 <= i < j < |rows| :: rows[i].key != rows[j].key
  }

  ghost predicate Loaded(row: Row) {
    row.value.Mapping? ==> IsMapping(row.value.rows)
  }

  predicate NamesField(row: Row) {
    row.key.Str? && !Blank(row.key.text)
  }

  predicate OnlyKnownFields(rows: seq<Row>) {
    forall r | r in rows :: r.key == Str("kind") || r.key == Str("required") || r.key == Str("aliases")
  }

  predicate HasKind(rows: seq<Row>) {
    Row(Str("kind"), Str("code_artifact")) in rows
  }

  predicate RequiredIsFlag(rows: seq<Row>) {
    forall r | r in rows && r.key == Str("required") :: r.value.Flag?
  }

  predicate AliasesAreNames(rows: seq<Row>) {
    forall r | r in rows && r.key == Str("aliases") ::
      r.value.Items? && forall a | a in r.value.items :: a.Str? && !Blank(a.text)
  }

  /** A declaration in order: a kind alone, or a mapping of a kind and perhaps a flag and a list of names. */
  predicate WellDeclared(row: Row) {
    && NamesField(row)
    && (|| row.value == Str("code_artifact")
        || (&& row.value.Mapping? && OnlyKnownFields(row.value.rows) && HasKind(row.value.rows)
            && RequiredIsFlag(row.value.rows) && AliasesAreNames(row.value.rows)))
  }

  ghost predicate ListsAlias(row: Row, x: string) {
    && row.value.Mapping?
    && exists r | r in row.value.rows :: r.key == Str("aliases") && r.value.Items? && Str(x) in r.value.items
  }

  /** What the table holds for a declaration: the contract is required unless the mapping says otherwise,
      and has the listed aliases, each once. */
  ghost predicate Declares(row: Row, field: string, contract: Contract) {
    && row.key == Str(field) && contract.kind == "code_artifact"
    && (!contract.required <==> row.value.Mapping? && Row(Str("required"), Flag(false)) in row.value.rows)
    && (forall x :: x in contract.aliases <==> ListsAlias(row, x))
    && NoDuplicates(contract.aliases)
  }

  lemma {:induction false} LookupIsRow(rows: seq<Row>, name: string, value: Yaml)
    requires IsMapping(rows)
    ensures Lookup(rows, name) == Some(value) <==> Row(Str(name), value) in rows
    ensures Lookup(rows, name).None? <==> forall r | r in rows :: r.key != Str(name)
  {
    if rows != [] {
      assert rows == [rows[0]] + rows[1..];
      assert forall i | 0 <= i < |rows| - 1 :: rows[1..][i] == rows[i + 1];
      LookupIsRow(rows[1..], name, value);
      forall r | r in rows[1..] ensures r.key != rows[0].key {
        var k :| 0 <= k < |rows| - 1 && rows[1..][k] == r;
        assert rows[k + 1] == r;
      }
    }
  }

  lemma {:induction false} TextsHold(items: seq<Yaml>, x: string)
    requires forall y | y in items :: y.Str?
    ensures x in Texts(items) <==> Str(x) in items
  {
    if x in Texts(items) {
      var i :| 0 <= i < |items| && Texts(items)[i] == x;
      assert items[i] in items;
      assert items[i] == Str(x);
    }
    if Str(x) in items {
      var i :| 0 <= i < |items| && items[i] == Str(x);
      assert Texts(items)[i] == x;
    }
  }

  lemma {:induction false} LookupsMean(rows: seq<Row>)
    requires IsMapping(rows)
    ensures Lookup(rows, "kind") == Some(Str("code_artifact")) <==> HasKind(rows)
    ensures Lookup(rows, "required").None? || Lookup(rows, "required").value.Flag? <==> RequiredIsFlag(rows)
    ensures Lookup(rows, "required") == Some(Flag(false)) <==> Row(Str("required"), Flag(false)) in rows
    ensures Lookup(rows, "aliases").None? || IsAliasList(Lookup(rows, "aliases").value) <==> AliasesAreNames(rows)
  {
    LookupIsRow(rows, "kind", Str("code_artifact"));
    LookupIsRow(rows, "required", Flag(false));
    LookupHolds(rows, "required");
    LookupHolds(rows, "aliases");
  }

  lemma {:induction false} LookupHolds(rows: seq<Row>, name: string)
    requires IsMapping(rows)
    ensures match Lookup(rows, name)
            case Some(value) => forall r | r in rows && r.key == Str(name) :: r.value == value
            case None => forall r | r in rows :: r.key != Str(name)
    ensures Lookup(rows, name).Some? ==> Row(Str(name), Lookup(rows, name).value) in rows
  {
    LookupIsRow(rows, name, Null);
    if Lookup(rows, name).Some? { LookupIsRow(rows, name, Lookup(rows, name).value); }
    forall r | r in rows && r.key == Str(name) ensures Lookup(rows, name) == Some(r.value) {
      LookupIsRow(rows, name, r.value);
      assert r == Row(Str(name), r.value);
    }
  }

  lemma {:induction false} AliasesMean(rows: seq<Row>, x: string)
    requires IsMapping(rows) && AliasesAreNames(rows)
    ensures var aliases := match Lookup(rows, "aliases") case Some(y) => y case None => Items([]);
            && IsAliasList(aliases)
            && (x in Dedup(Texts(aliases.items))
                <==> exists r | r in rows :: r.key == Str("aliases") && r.value.Items? && Str(x) in r.value.items)
  {
    LookupsMean(rows);
    LookupHolds(rows, "aliases");
    var aliases := match Lookup(rows, "aliases") case Some(y) => y case None => Items([]);
    DedupIsDistinct(Texts(aliases.items));
    TextsHold(aliases.items, x);
  }

  /** The checks on a declaration, in its own terms: which declarations pass, and what the contract of one
      that passes holds. */
  lemma {:induction false} DeclarationMeans(row: Row)
    requires Loaded(row)
    ensures WellFormed(row) <==> WellDeclared(row)
    ensures WellFormed(row) ==> Declares(row, Check(row).value.field, Check(row).value.contract)
  {
    if row.value.Mapping? {
      var rows := row.value.rows;
      LookupsMean(rows);
      assert (exists r | r in rows :: !IsKnownField(r.key)) <==> !OnlyKnownFields(rows);
      if WellDeclared(row) {
        forall x ensures x in Check(row).value.contract.aliases <==> ListsAlias(row, x) { AliasesMean(rows, x); }
        DedupIsDistinct(Texts((match Lookup(rows, "aliases") case Some(y) => y case None => Items([])).items));
      }
    } else if row.value.Str? {
      ShortForm(row);
    }
  }

  lemma {:induction false} ShortForm(row: Row)
    requires row.value.Str?
    ensures WellFormed(row) <==> NamesField(row) && row.value == Str("code_artifact")
    ensures WellFormed(row) ==> Check(row) == Ok(Declaration(row.key.text, Contract("code_artifact", true, [])))
  {
    var rows := [Row(Str("kind"), row.value)];
    assert Lookup(rows, "kind") == Some(row.value);
    assert rows[1..] == [];
    assert |"required"| != |"kind"| && |"aliases"| != |"kind"|;
    assert Lookup(rows[1..], "required") == None == Lookup(rows[1..], "aliases");
    assert Texts([]) == [];
  }

  /** What is reported about a declaration that does not pass: the first of these that is wrong. */
  lemma {:induction false} DeclarationFaults(row: Row)
    requires Loaded(row) && Check(row).Err?
    ensures Check(row).error
            == if !NamesField(row) then BadFieldName
               else
                 var field := row.key.text;
                 if row.value.Str? then BadKind(field)
                 else if !row.value.Mapping? then BadDeclaration(field)
                 else if !OnlyKnownFields(row.value.rows) then UnknownFields(field)
                 else if exists r | r in row.value.rows ::
                   r.key == Str("kind") && (r.value.Items? || r.value.Mapping?)
                 then
                   UnhashableKind(field)
                 else if !HasKind(row.value.rows) then BadKind(field)
                 else if !RequiredIsFlag(row.value.rows) then BadRequired(field)
                 else BadAliases(field)
  {
    if row.value.Mapping? {
      var rows := row.value.rows;
      LookupsMean(rows);
      LookupHolds(rows, "kind");
      assert (exists r | r in rows :: !IsKnownField(r.key)) <==> !OnlyKnownFields(rows);
    } else if row.value.Str? {
      ShortForm(row);
      assert Lookup([Row(Str("kind"), row.value)], "kind") == Some(row.value);
    }
  }

  function NamesOf(field: string, contract: Contract): seq<string> {
    [field] + contract.aliases
  }

  /** Every name a well-formed declaration claims, the canonical one first. */
  function Names(row: Row): seq<string> {
    match Check(row)
    case Ok(d) => NamesOf(d.field, d.contract)
    case Err(_) => []
  }

  function FirstCollision(rows: seq<Row>, n: nat, names: Row -> seq<string>, field: string, own: seq<string>)
    : Option<ParseError>
    requires n <= |rows|
  {
    if own == [] then None
    else match Owner(rows, names, n, own[0])
      case Some(owner) => Some(Collision(field, own[0], owner))
      case None => FirstCollision(rows, n, names, field, own[1..])
  }

  /** What is wrong with declaration `i`, given the ones before it. */
  function RowError(rows: seq<Row>, i: nat): Option<ParseError>
    requires i < |rows|
  {
    match Check(rows[i])
    case Err(e) => Some(e)
    case Ok(d) =>
      if d.field in d.contract.aliases then Some(SelfAlias(d.field))
      else FirstCollision(rows, i, Names, d.field, NamesOf(d.field, d.contract))
  }

  ghost predicate CleanUpTo(rows: seq<Row>, n: nat)
    requires n <= |rows|
  {
    forall i | 0 <= i < n :: RowError(rows, i).None?
  }

  ghost predicate Accepted(rows: seq<Row>) {
    CleanUpTo(rows, |rows|)
  }

  /** The parse stops at `error`: the first thing wrong in the order of declaration. */
  ghost predicate FirstError(rows: seq<Row>, error: ParseError) {
    exists i | 0 <= i < |rows| :: CleanUpTo(rows, i) && RowError(rows, i) == Some(error)
  }

  /** The table that lists the first `n` declarations in order. */
  ghost predicate Lists(table: Table, rows: seq<Row>, n: nat)
    requires n <= |rows|
  {
    && |table| == n
    && forall i | 0 <= i < n ::
         WellFormed(rows[i]) && table[i] == Item(Check(rows[i]).value.field, Check(rows[i]).value.contract)
  }

  lemma {:induction false} CollisionMeansOwned(rows: seq<Row>, n: nat, names: Row -> seq<string>, field: string,
                                               own: seq<string>)
    requires n <= |rows|
    ensures FirstCollision(rows, n, names, field, own).None? <==> forall x | x in own :: Owner(rows, names, n, x).None?
  {
    if own != [] {
      CollisionMeansOwned(rows, n, names, field, own[1..]);
      assert own == [own[0]] + own[1..];
      assert own[0] in own;
    }
  }

  lemma {:induction false} CollisionAt(rows: seq<Row>, n: nat, names: Row -> seq<string>, field: string,
                                       own: seq<string>, k: nat)
    requires n <= |rows| && k < |own|
    requires forall j | 0 <= j < k :: Owner(rows, names, n, own[j]).None?
    requires Owner(rows, names, n, own[k]).Some?
    ensures FirstCollision(rows, n, names, field, own)
            == Some(Collision(field, own[k], Owner(rows, names, n, own[k]).value))
  {
    if k != 0 {
      CollisionAt(rows, n, names, field, own[1..], k - 1);
    }
  }

  /** The dictionary of owners agrees with the first `n` declarations. */
  ghost predicate Records(owners: map<string, string>, rows: seq<Row>, names: Row -> seq<string>, n: nat)
    requires n <= |rows|
  {
    forall x :: Owner(rows, names, n, x) == if x in owners then Some(owners[x]) else None
  }

  lemma {:induction false} KeysAreOwned(table: Table, rows: seq<Row>, n: nat, names: Row -> seq<string>, field: string)
    requires n <= |rows| && Lists(table, rows, n) && names == Names
    requires Has(table, field)
    ensures Owner(rows, names, n, field).Some?
  {
    HasKey(table, field);
    var i :| 0 <= i < n && table[i].key == field;
    assert names(rows[i]) == Names(rows[i]);
    assert field in names(rows[i]);
    OwnerIsEarlier(rows, names, n, field);
  }

  lemma {:induction false} CleanStep(rows: seq<Row>, i: nat, names: Row -> seq<string>)
    requires i < |rows| && CleanUpTo(rows, i) && names == Names
    requires WellFormed(rows[i]) && Check(rows[i]).value.field !in Check(rows[i]).value.contract.aliases
    requires forall x | x in names(rows[i]) :: Owner(rows, names, i, x).None?
    ensures CleanUpTo(rows, i + 1)
  {
    var d := Check(rows[i]).value;
    assert names(rows[i]) == Names(rows[i]) == NamesOf(d.field, d.contract);
    CollisionMeansOwned(rows, i, names, d.field, names(rows[i]));
    assert RowError(rows, i) == FirstCollision(rows, i, names, d.field, names(rows[i]));
  }

  /** Item by item the table holds what the declarations say. */
  ghost predicate TableMeans(rows: seq<Row>, table: Table) {
    && |table| == |rows|
    && forall i | 0 <= i < |rows| && Loaded(rows[i]) ::
         WellDeclared(rows[i]) && Declares(rows[i], table[i].key, table[i].value)
  }

  lemma {:induction false} ListedMeans(rows: seq<Row>, table: Table)
    requires Lists(table, rows, |rows|)
    ensures TableMeans(rows, table)
  {
    forall i | 0 <= i < |rows| && Loaded(rows[i])
      ensures WellDeclared(rows[i]) && Declares(rows[i], table[i].key, table[i].value)
    {
      DeclarationMeans(rows[i]);
    }
  }

  /** `parse_artifact_contracts` */
  method ParseArtifactContracts(raw: Yaml) returns (r: Result<Table, ParseError>)
    ensures raw.Null? ==> r == Ok([])
    ensures !raw.Null? && !raw.Mapping? ==> r == Err(NotAMapping)
    ensures raw.Mapping? && r.Ok? ==> Accepted(raw.rows) && Lists(r.value, raw.rows, |raw.rows|)
    ensures raw.Mapping? && r.Err? ==> FirstError(raw.rows, r.error)
    ensures raw.Mapping? && r.Ok? ==> TableMeans(raw.rows, r.value)
  {
    if raw.Null? { return Ok([]); }
    if !raw.Mapping? { return Err(NotAMapping); }
    var rows := raw.rows;
    var contracts: Table := [];
    var owners: map<string, string> := map[];
    ghost var claims: Row -> seq<string> := Names;
    for i := 0 to |rows|
      invariant CleanUpTo(rows, i)
      invariant Lists(contracts, rows, i)
      invariant Records(owners, rows, claims, i)
    {
      var checked := Check(rows[i]);
      if checked.Err? {
        assert RowError(rows, i) == Some(checked.error);
        return Err(checked.error);
      }
      var Declaration(field, contract) := checked.value;
      if field in contract.aliases {
        assert RowError(rows, i) == Some(SelfAlias(field));
        return Err(SelfAlias(field));
      }
      NamesDistinct(rows[i]);
      var claimed := ClaimNames(owners, field, NamesOf(field, contract));
      if claimed.Err? {
        ClaimFails(owners, rows, i, claims, claimed.error);
        return Err(claimed.error);
      }
      ClaimSucceeds(owners, rows, i, claims, contracts, claimed.value);
      owners := claimed.value;
      contracts := Put(contracts, field, contract);
    }
    ListedMeans(rows, contracts);
    r := Ok(contracts);
  }

  /** The inner loop of the parser: makes `field` the owner of all of `names`, unless one is taken. */
  method ClaimNames(owners: map<string, string>, field: string, names: seq<string>)
    returns (r: Result<map<string, string>, ParseError>)
    requires NoDuplicates(names)
    ensures r.Ok? ==> (forall x | x in names :: x !in owners) && Claimed(owners, field, names, r.value)
    ensures r.Err? ==> FirstTaken(owners, field, names, r.error)
  {
    var claimed := owners;
    for n := 0 to |names|
      invariant forall j | 0 <= j < n :: names[j] !in owners
      invariant Claimed(owners, field, names[..n], claimed)
    {
      assert names[n] !in names[..n];
      if names[n] in claimed {
        return Err(Collision(field, names[n], claimed[names[n]]));
      }
      claimed := claimed[names[n] := field];
      assert names[..n + 1] == names[..n] + [names[n]];
    }
    assert names[..|names|] == names;
    r := Ok(claimed);
  }

  /** `claimed` is `owners` with `field` as the owner of all of `names`. */
  ghost predicate Claimed(owners: map<string, string>, field: string, names: seq<string>,
                          claimed: map<string, string>)
  {
    forall x :: (x in claimed <==> x in owners || x in names)
                && (x in claimed ==> claimed[x] == if x in names then field else owners[x])
  }

  ghost predicate FirstTaken(owners: map<string, string>, field: string, names: seq<string>, error: ParseError) {
    exists n | 0 <= n < |names| ::
      && names[n] in owners
      && (forall j | 0 <= j < n :: names[j] !in owners)
      && error == Collision(field, names[n], owners[names[n]])
  }

  lemma {:induction false} ClaimFails(owners: map<string, string>, rows: seq<Row>, i: nat, names: Row -> seq<string>,
                                      error: ParseError)
    requires i < |rows| && names == Names && Records(owners, rows, names, i)
    requires WellFormed(rows[i]) && Check(rows[i]).value.field !in Check(rows[i]).value.contract.aliases
    requires FirstTaken(owners, Check(rows[i]).value.field, Names(rows[i]), error)
    ensures RowError(rows, i) == Some(error)
  {
    var field, own := Check(rows[i]).value.field, Names(rows[i]);
    var n :| 0 <= n < |own| && own[n] in owners && (forall j | 0 <= j < n :: own[j] !in owners)
             && error == Collision(field, own[n], owners[own[n]]);
    CollisionAt(rows, i, names, field, own, n);
  }

  lemma {:induction false} RecordsNext(owners: map<string, string>, rows: seq<Row>, i: nat, names: Row -> seq<string>,
                                       claimed: map<string, string>)
    requires i < |rows| && names(rows[i]) != [] && Records(owners, rows, names, i)
    requires Claimed(owners, names(rows[i])[0], names(rows[i]), claimed)
    ensures Records(claimed, rows, names, i + 1)
  {
  }

  lemma {:induction false} ListsNext(table: Table, rows: seq<Row>, i: nat)
    requires i < |rows| && Lists(table, rows, i) && WellFormed(rows[i])
    requires !Has(table, Check(rows[i]).value.field)
    ensures Lists(Put(table, Check(rows[i]).value.field, Check(rows[i]).value.contract), rows, i + 1)
  {
    PutNew(table, Check(rows[i]).value.field, Check(rows[i]).value.contract);
  }

  lemma {:induction false} ClaimSucceeds(owners: map<string, string>, rows: seq<Row>, i: nat, names: Row -> seq<string>,
                                         table: Table, claimed: map<string, string>)
    requires i < |rows| && names == Names && Records(owners, rows, names, i)
    requires WellFormed(rows[i]) && Check(rows[i]).value.field !in Check(rows[i]).value.contract.aliases
    requires forall x | x in Names(rows[i]) :: x !in owners
    requires Claimed(owners, Check(rows[i]).value.field, Names(rows[i]), claimed)
    requires CleanUpTo(rows, i) && Lists(table, rows, i)
    ensures CleanUpTo(rows, i + 1)
    ensures Records(claimed, rows, names, i + 1)
    ensures Lists(Put(table, Check(rows[i]).value.field, Check(rows[i]).value.contract), rows, i + 1)
  {
    var field, own := Check(rows[i]).value.field, names(rows[i]);
    assert own == Names(rows[i]);
    assert own[0] == field;
    assert field in own;
    assert forall x | x in own :: Owner(rows, names, i, x).None?;
    if Has(table, field) { KeysAreOwned(table, rows, i, names, field); }
    ListsNext(table, rows, i);
    CleanStep(rows, i, names);
    RecordsNext(owners, rows, i, names, claimed);
  }

  /** The names of one declaration are distinct unless it lists its own field as an alias. */
  lemma {:induction false} NamesDistinct(row: Row)
    requires WellFormed(row)
    ensures NoDuplicates(Names(row)) <==> Check(row).value.field !in Check(row).value.contract.aliases
    ensures NoDuplicates(Check(row).value.contract.aliases)
  {
    var d := Check(row).value;
    var names := Names(row);
    AliasesDistinct(row);
    assert names[1..] == d.contract.aliases;
    if d.field in d.contract.aliases {
      var i :| 0 <= i < |d.contract.aliases| && d.contract.aliases[i] == d.field;
      assert names[0] == names[i + 1];
    } else {
      assert forall i | 1 <= i < |names| :: names[i] == d.contract.aliases[i - 1];
    }
  }

  lemma {:induction false} AliasesDistinct(row: Row)
    requires WellFormed(row)
    ensures NoDuplicates(Check(row).value.contract.aliases)
  {
    var rows := if row.value.Str? then [Row(Str("kind"), row.value)] else row.value.rows;
    var aliases := match Lookup(rows, "aliases") case Some(y) => y case None => Items([]);
    DedupIsDistinct(Texts(aliases.items));
  }

  lemma {:induction false} RowAccepted(rows: seq<Row>, j: nat, names: Row -> seq<string>)
    requires j < |rows| && names == Names && WellFormed(rows[j])
    ensures RowError(rows, j).None?
            <==> NoDuplicates(names(rows[j])) && forall i | 0 <= i < j :: Disjoint(names(rows[j]), names(rows[i]))
  {
    NamesDistinct(rows[j]);
    assert names(rows[j]) == Names(rows[j]);
    CollisionMeansOwned(rows, j, names, Check(rows[j]).value.field, names(rows[j]));
    UnownedIsDisjoint(rows, names, j);
  }

  /** The parser accepts a mapping just when every declaration is well formed and no name,
      canonical or alias, is claimed twice anywhere in the table. */
  lemma {:induction false} AcceptsDistinctNames(rows: seq<Row>)
    ensures Accepted(rows)
            <==> (forall row | row in rows :: WellFormed(row)) && NoDuplicates(AllNames(rows, Names, |rows|))
  {
    var names := Names;
    DistinctIsPairwise(rows, names, |rows|);
    forall j | 0 <= j < |rows| && WellFormed(rows[j])
      ensures RowError(rows, j).None?
              <==> NoDuplicates(names(rows[j])) && forall i | 0 <= i < j :: Disjoint(names(rows[j]), names(rows[i]))
    {
      RowAccepted(rows, j, names);
    }
    assert forall j | 0 <= j < |rows| && !WellFormed(rows[j]) :: RowError(rows, j).Some?;
  }

  /** Reordering the declarations does not change acceptance. */
  lemma {:induction false} OrderIndependent(rows: seq<Row>, shuffled: seq<Row>)
    requires multiset(rows) == multiset(shuffled)
    ensures Accepted(rows) <==> Accepted(shuffled)
  {
    AcceptsDistinctNames(rows);
    AcceptsDistinctNames(shuffled);
    assert forall row :: row in rows <==> row in multiset(rows);
    assert forall row :: row in shuffled <==> row in multiset(shuffled);
    if forall row | row in rows :: WellFormed(row) {
      ReorderKeepsDistinct(rows, shuffled, Names);
    }
  }

  /** Reordering the declarations does not change which contracts the table holds. */
  lemma {:induction false} SameTable(rows: seq<Row>, shuffled: seq<Row>, table: Table, other: Table)
    requires multiset(rows) == multiset(shuffled)
    requires Lists(table, rows, |rows|) && Lists(other, shuffled, |shuffled|)
    ensures forall item :: item in table <==> item in other
  {
    SubTable(rows, shuffled, table, other);
    SubTable(shuffled, rows, other, table);
  }

  lemma {:induction false} SubTable(rows: seq<Row>, shuffled: seq<Row>, table: Table, other: Table)
    requires multiset(rows) == multiset(shuffled)
    requires Lists(table, rows, |rows|) && Lists(other, shuffled, |shuffled|)
    ensures forall item | item in table :: item in other
  {
    forall item | item in table ensures item in other {
      var i :| 0 <= i < |rows| && table[i] == item;
      assert rows[i] in multiset(shuffled);
      var j :| 0 <= j < |shuffled| && shuffled[j] == rows[i];
      assert other[j] == item;
    }
  }

  function ItemNames(item: Item<string, Contract>): seq<string> {
    NamesOf(item.key, item.value)
  }

  /** No name, canonical or alias, occurs twice in the table. */
  ghost predicate NamesDisjoint(table: Table) {
    PairwiseDistinct(table, ItemNames, |table|)
  }

  /** What the parser hands on: a table in which every name has one owner. */
  lemma {:induction false} ParsedNamesDisjoint(rows: seq<Row>, table: Table)
    requires Accepted(rows) && Lists(table, rows, |rows|)
    ensures NamesDisjoint(table)
  {
    AcceptsDistinctNames(rows);
    ListedNamesDisjoint(rows, table, Names, ItemNames);
  }

  /** Every contract of the table is of the one kind that the normaliser knows. */
  lemma {:induction false} ParsedKinds(rows: seq<Row>, table: Table)
    requires Lists(table, rows, |rows|)
    ensures forall item | item in table :: item.value.kind == CODE_ARTIFACT
  {
    forall i | 0 <= i < |table| ensures table[i].value.kind == CODE_ARTIFACT {
      assert WellFormed(rows[i]);
    }
  }

  lemma {:induction false} ListedNamesDisjoint(rows: seq<Row>, table: Table, names: Row -> seq<string>,
                            itemNames: Item<string, Contract> -> seq<string>)
    requires Lists(table, rows, |rows|) && names == Names && itemNames == ItemNames
    requires NoDuplicates(AllNames(rows, names, |rows|))
    ensures PairwiseDistinct(table, itemNames, |table|)
  {
    DistinctIsPairwise(rows, names, |rows|);
    forall i | 0 <= i < |rows| ensures names(rows[i]) == itemNames(table[i]) {
      assert Names(rows[i]) == ItemNames(table[i]);
    }
    forall i, j | 0 <= i < j < |table| ensures Disjoint(itemNames(table[j]), itemNames(table[i])) {
      assert Disjoint(names(rows[j]), names(rows[i]));
    }
  }

  /** `validate_contract_bindings`: the canonical names with no declared field. */
  function Unbound<V>(table: Table, declared: Dict<string, V>): (r: seq<string>)
    ensures r == [] <==> forall i | 0 <= i < |table| :: Has(declared, table[i].key)
  {
    if table == [] then []
    else
      var init, last := table[..|table| - 1], table[|table| - 1].key;
      Unbound(init, declared) + if Has(declared, last) then [] else [last]
  }

  /** The unbound contracts are those whose names are not declared. */
  lemma {:induction false} UnboundMeans<V>(table: Table, declared: Dict<string, V>, x: string)
    ensures x in Unbound(table, declared) <==> Has(table, x) && !Has(declared, x)
  {
    HasKey(table, x);
    if table != [] { UnboundMeans(table[..|table| - 1], declared, x); }
  }

  lemma {:induction false} OwnerClaims(rows: seq<Row>, names: Row -> seq<string>, n: nat, x: string) returns (j: nat)
    requires n <= |rows| && Owner(rows, names, n, x).Some?
    ensures j < n && x in names(rows[j]) && Owner(rows, names, n, x).value == names(rows[j])[0]
  {
    if x in names(rows[n - 1]) { j := n - 1; } else { j := OwnerClaims(rows, names, n - 1, x); }
  }

  lemma {:induction false} CollisionIsReal(rows: seq<Row>, n: nat, names: Row -> seq<string>, field: string,
                                           own: seq<string>) returns (x: string, j: nat)
    requires n <= |rows| && FirstCollision(rows, n, names, field, own).Some?
    ensures x in own && j < n && x in names(rows[j])
    ensures FirstCollision(rows, n, names, field, own).value == Collision(field, x, names(rows[j])[0])
  {
    if Owner(rows, names, n, own[0]).Some? {
      x := own[0];
      j := OwnerClaims(rows, names, n, x);
    } else {
      x, j := CollisionIsReal(rows, n, names, field, own[1..]);
    }
  }

  /** A declaration is wrong beyond its form when it lists its own field, or claims a name that an earlier
      declaration, the reported owner, has claimed. */
  lemma {:induction false} ClaimsAreReal(rows: seq<Row>, i: nat)
    requires i < |rows| && RowError(rows, i).Some?
    ensures match RowError(rows, i).value
            case SelfAlias(field) => rows[i].key == Str(field) && field in Check(rows[i]).value.contract.aliases
            case Collision(field, name, owner) =>
              && rows[i].key == Str(field) && name in Names(rows[i])
              && exists j | 0 <= j < i :: rows[j].key == Str(owner) && name in Names(rows[j])
            case error => Check(rows[i]) == Err(error)
  {
    match Check(rows[i])
    case Err(e) =>
      assert RowError(rows, i) == Some(e);
    case Ok(d) =>
      if d.field !in d.contract.aliases {
        var name, j := CollisionIsReal(rows, i, Names, d.field, NamesOf(d.field, d.contract));
        assert name in Names(rows[j]) && rows[j].key == Str(Names(rows[j])[0]);
      }
  }
}
