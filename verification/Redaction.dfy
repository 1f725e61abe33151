/** Scrubbing sensitive fields from nested provider inventories. */
module Redaction {
  import opened Text

  const REDACTED := "[REDACTED]"
  const MAX_DEPTH: nat := 10

  const SENSITIVE_KEYS: set<string> :=
    {"api_key", "api_key_present", "endpoint", "endpoints", "api_token",
     "secret", "password", "token", "authorization", "key"}

  const MARKERS: seq<string> := ["secret", "token", "key", "password", "authorization", "endpoint"]

  /** `_is_sensitive` */
  predicate IsSensitive(key: string) {
    Lower(key) in SENSITIVE_KEYS || exists i | 0 <= i < |MARKERS| :: Contains(Lower(key), MARKERS[i])
  }

  /** The list of exact names adds nothing: a key is sensitive just when, in lower case, it contains one of
      six markers. */
  lemma {:induction false} MarkersDecide(key: string)
    ensures var k := Lower(key);
            IsSensitive(key)
            <==> || Contains(k, "secret") || Contains(k, "token") || Contains(k, "key")
                 || Contains(k, "password") || Contains(k, "authorization") || Contains(k, "endpoint")
  {
    var k := Lower(key);
    assert MARKERS[0] == "secret" && MARKERS[1] == "token" && MARKERS[2] == "key";
    assert MARKERS[3] == "password" && MARKERS[4] == "authorization" && MARKERS[5] == "endpoint";
    if k in SENSITIVE_KEYS { ExactNames(k); }
  }

  lemma {:induction false} ExactNames(k: string)
    requires k in SENSITIVE_KEYS
    ensures Contains(k, "secret") || Contains(k, "token") || Contains(k, "key")
            || Contains(k, "password") || Contains(k, "authorization") || Contains(k, "endpoint")
  {
    if k == "api_key" || k == "api_key_present" {
      assert OccursAt(k, "key", 4);
    } else if k == "endpoint" || k == "endpoints" {
      assert OccursAt(k, "endpoint", 0);
    } else if k == "api_token" {
      assert OccursAt(k, "token", 4);
    } else {
      assert OccursAt(k, k, 0);
    }
  }

  /** Keys that differ in the case of letters alone are equally sensitive. */
  lemma {:induction false} SensitivityIgnoresCase(key: string, other: string)
    requires SameTextButCase(key, other)
    ensures IsSensitive(key) <==> IsSensitive(other)
  {
    LowerIdentifiesCase(key, other);
  }

  lemma {:induction false} SensitiveExamples()
    ensures IsSensitive("Authorization") && IsSensitive("api_key")
  {
    assert Lower("Authorization") == "authorization";
    assert Lower("api_key") == "api_key";
  }

  /** A key of two letters is too short for a marker. */
  lemma {:induction false} ShortIsPlain(key: string)
    requires |key| <= 2
    ensures !IsSensitive(key)
  {
    MarkersDecide(key);
  }

  /** A sensitive name stays sensitive under any prefix and suffix. */
  lemma {:induction false} SensitiveInside(left: string, key: string, right: string)
    requires IsSensitive(key)
    ensures IsSensitive(left + key + right)
  {
    MarkersDecide(key);
    MarkersDecide(left + key + right);
    forall marker | Contains(Lower(key), marker) ensures Contains(Lower(left + key + right), marker) {
      LowerInside(left, key, right, marker);
    }
  }

  lemma {:induction false} LowerInside(left: string, key: string, right: string, marker: string)
    requires Contains(Lower(key), marker)
    ensures Contains(Lower(left + key + right), marker)
  {
    ContainsInside(Lower(left), Lower(key), Lower(right), marker);
    assert Lower(left + key + right) == Lower(left) + Lower(key) + Lower(right);
  }

  // ---- Inventories ----

  /** A Python value; `Arr` is a list, `Tup` a tuple. */
  datatype Json =
    | Obj(fields: seq<Field>)
    | Arr(items: seq<Json>)
    | Tup(items: seq<Json>)
    | Str(text: string)
    | Atom(id: int)

  datatype Field = Field(key: string, value: Json)

  /** A field whose value is replaced without being looked at. */
  predicate Hidden(key: string, depth: nat) {
    IsSensitive(key) || depth >= MAX_DEPTH
  }

  /** What `redact_inventory` returns. */
  function Redact(fields: seq<Field>, depth: nat): (r: seq<Field>)
    ensures |r| == |fields|
    decreases fields
  {
    seq(|fields|, i requires 0 <= i < |fields| =>
      Field(fields[i].key,
            if Hidden(fields[i].key, depth) then Str(REDACTED) else RedactValue(fields[i].value, depth)))
  }

  function RedactValue(v: Json, depth: nat): Json
    decreases v
  {
    match v
    case Obj(fields) => Obj(Redact(fields, depth + 1))
    case Arr(items) =>
      Arr(seq(|items|, i requires 0 <= i < |items| =>
            if items[i].Obj? then Obj(Redact(items[i].fields, depth + 1)) else items[i]))
    case _ => v
  }

  /** `redact_inventory` */
  method RedactInventory(data: seq<Field>, depth: nat) returns (out: seq<Field>)
    ensures out == Redact(data, depth)
    decreases data
  {
    out := [];
    for n := 0 to |data|
      invariant out == Redact(data, depth)[..n]
    {
      var Field(k, v) := data[n];
      var redacted: Json;
      if Hidden(k, depth) {
        redacted := Str(REDACTED);
      } else if v.Obj? {
        var inner := RedactInventory(v.fields, depth + 1);
        redacted := Obj(inner);
      } else if v.Arr? {
        var items: seq<Json> := [];
        for m := 0 to |v.items|
          invariant |items| == m
          invariant forall j | 0 <= j < m :: items[j] == RedactValue(v, depth).items[j]
        {
          if v.items[m].Obj? {
            var inner := RedactInventory(v.items[m].fields, depth + 1);
            items := items + [Obj(inner)];
          } else {
            items := items + [v.items[m]];
          }
        }
        redacted := Arr(items);
        assert redacted == RedactValue(v, depth);
      } else {
        redacted := v;
      }
      out := out + [Field(k, redacted)];
      assert Redact(data, depth)[..n + 1] == Redact(data, depth)[..n] + [Redact(data, depth)[n]];
    }
  }

  // ---- What becomes of a field ----

  /** A sensitive field, and any field ten levels down or more, is masked whatever its value; in any other
      the dictionaries, also those directly in a list, are redacted one level further down, and everything
      else is left as it is. */
  lemma {:induction false} FieldIsMaskedOrWalked(fields: seq<Field>, depth: nat, i: nat)
    requires i < |fields|
    ensures var before, after := fields[i].value, Redact(fields, depth)[i].value;
            && Redact(fields, depth)[i].key == fields[i].key
            && if IsSensitive(fields[i].key) || depth >= 10 then after == Str("[REDACTED]")
               else match before
                 case Obj(inner) => after == Obj(Redact(inner, depth + 1))
                 case Arr(items) =>
                   && after.Arr? && |after.items| == |items|
                   && forall j | 0 <= j < |items| ::
                        after.items[j]
                        == if items[j].Obj? then Obj(Redact(items[j].fields, depth + 1)) else items[j]
                 case _ => after == before
  {
  }

  // ---- Redacting twice ----

  /** Redacting a redacted inventory changes nothing. */
  lemma {:induction false} RedactIsIdempotent(fields: seq<Field>, depth: nat)
    ensures Redact(Redact(fields, depth), depth) == Redact(fields, depth)
    decreases fields
  {
    var r := Redact(fields, depth);
    forall i | 0 <= i < |fields| ensures Redact(r, depth)[i] == r[i] {
      if !Hidden(fields[i].key, depth) { RedactValueIsIdempotent(fields[i].value, depth); }
    }
  }

  lemma {:induction false} RedactValueIsIdempotent(v: Json, depth: nat)
    ensures RedactValue(RedactValue(v, depth), depth) == RedactValue(v, depth)
    decreases v
  {
    match v
    case Obj(fields) => RedactIsIdempotent(fields, depth + 1);
    case Arr(items) =>
      var r := RedactValue(v, depth).items;
      forall i | 0 <= i < |items| ensures RedactValue(Arr(r), depth).items[i] == r[i] {
        if items[i].Obj? { RedactIsIdempotent(items[i].fields, depth + 1); }
      }
    case _ =>
  }

  // ---- What the output shows of the input ----

  /** The two inventories agree on everything the walk shows. */
  predicate SameVisible(x: seq<Field>, y: seq<Field>, depth: nat)
    decreases x
  {
    && |x| == |y|
    && forall i | 0 <= i < |x| ::
         x[i].key == y[i].key && (Hidden(x[i].key, depth) || SameVisibleValue(x[i].value, y[i].value, depth))
  }

  predicate SameVisibleValue(v: Json, w: Json, depth: nat)
    decreases v
  {
    match (v, w)
    case (Obj(f), Obj(g)) => SameVisible(f, g, depth + 1)
    case (Arr(s), Arr(t)) =>
      && |s| == |t|
      && forall i | 0 <= i < |s| ::
           if s[i].Obj? && t[i].Obj? then SameVisible(s[i].fields, t[i].fields, depth + 1) else s[i] == t[i]
    case _ => v == w
  }

  /** The output depends on exactly the visible part of the input: neither more nor less. */
  lemma {:induction false} OutputShowsVisible(x: seq<Field>, y: seq<Field>, depth: nat)
    ensures Redact(x, depth) == Redact(y, depth) <==> SameVisible(x, y, depth)
    decreases x
  {
    var r, s := Redact(x, depth), Redact(y, depth);
    if |x| == |y| {
      forall i | 0 <= i < |x| && x[i].key == y[i].key && !Hidden(x[i].key, depth)
        ensures r[i].value == s[i].value <==> SameVisibleValue(x[i].value, y[i].value, depth)
      {
        ValueShowsVisible(x[i].value, y[i].value, depth);
      }
      if SameVisible(x, y, depth) {
        assert forall i | 0 <= i < |x| :: r[i] == s[i];
      }
      if r == s {
        forall i | 0 <= i < |x|
          ensures x[i].key == y[i].key && (Hidden(x[i].key, depth) || SameVisibleValue(x[i].value, y[i].value, depth))
        {
          assert r[i] == s[i];
        }
      }
    }
  }

  lemma {:induction false} ValueShowsVisible(v: Json, w: Json, depth: nat)
    ensures RedactValue(v, depth) == RedactValue(w, depth) <==> SameVisibleValue(v, w, depth)
    decreases v
  {
    match (v, w)
    case (Obj(f), Obj(g)) => OutputShowsVisible(f, g, depth + 1);
    case (Arr(s), Arr(t)) =>
      var a, b := RedactValue(v, depth).items, RedactValue(w, depth).items;
      if |s| == |t| {
        forall i | 0 <= i < |s|
          ensures a[i] == b[i]
                  <==> if s[i].Obj? && t[i].Obj? then SameVisible(s[i].fields, t[i].fields, depth + 1) else s[i] == t[i]
        {
          if s[i].Obj? && t[i].Obj? { OutputShowsVisible(s[i].fields, t[i].fields, depth + 1); }
        }
      }
    case _ =>
  }

  /** Keys and their order survive in every dictionary that is walked. */
  lemma {:induction false} KeysSurvive(fields: seq<Field>, depth: nat)
    ensures SameKeys(fields, Redact(fields, depth), depth)
    decreases fields
  {
    forall i | 0 <= i < |fields| && !Hidden(fields[i].key, depth)
      ensures SameKeysValue(fields[i].value, Redact(fields, depth)[i].value, depth)
    {
      match fields[i].value
      case Obj(inner) => KeysSurvive(inner, depth + 1);
      case Arr(items) =>
        forall j | 0 <= j < |items| && items[j].Obj?
          ensures SameKeys(items[j].fields, Redact(items[j].fields, depth + 1), depth + 1)
        {
          KeysSurvive(items[j].fields, depth + 1);
        }
      case _ =>
    }
  }

  predicate SameKeys(x: seq<Field>, y: seq<Field>, depth: nat)
    decreases x
  {
    && |x| == |y|
    && forall i | 0 <= i < |x| ::
         x[i].key == y[i].key && (Hidden(x[i].key, depth) || SameKeysValue(x[i].value, y[i].value, depth))
  }

  predicate SameKeysValue(v: Json, w: Json, depth: nat)
    decreases v
  {
    match (v, w)
    case (Obj(f), Obj(g)) => SameKeys(f, g, depth + 1)
    case (Arr(s), Arr(t)) =>
      |s| == |t| && forall i | 0 <= i < |s| && s[i].Obj? :: t[i].Obj? && SameKeys(s[i].fields, t[i].fields, depth + 1)
    case _ => v == w
  }

  // ---- Non-interference ----

  /** The inventories differ only in values under hidden keys, wherever these are nested. */
  predicate DifferInSecrets(x: seq<Field>, y: seq<Field>, depth: nat)
    decreases x
  {
    && |x| == |y|
    && forall i | 0 <= i < |x| ::
         x[i].key == y[i].key && (Hidden(x[i].key, depth) || DifferInSecretsValue(x[i].value, y[i].value, depth))
  }

  predicate DifferInSecretsValue(v: Json, w: Json, depth: nat)
    decreases v
  {
    match (v, w)
    case (Obj(f), Obj(g)) => DifferInSecrets(f, g, depth + 1)
    case (Arr(s), Arr(t)) => |s| == |t| && forall i | 0 <= i < |s| :: DifferInSecretsValue(s[i], t[i], depth)
    case (Tup(s), Tup(t)) => |s| == |t| && forall i | 0 <= i < |s| :: DifferInSecretsValue(s[i], t[i], depth)
    case _ => v == w
  }

  /** No hidden key anywhere inside. */
  predicate Secretless(v: Json, depth: nat) {
    match v
    case Obj(fields) =>
      forall i | 0 <= i < |fields| :: !Hidden(fields[i].key, depth + 1) && Secretless(fields[i].value, depth + 1)
    case Arr(items) => forall i | 0 <= i < |items| :: Secretless(items[i], depth)
    case Tup(items) => forall i | 0 <= i < |items| :: Secretless(items[i], depth)
    case _ => true
  }

  /** The walk stops at a tuple and at a list directly inside a list; none of these may hold a hidden key. */
  predicate UnwalkedSecretless(fields: seq<Field>, depth: nat)
    decreases fields
  {
    forall i | 0 <= i < |fields| && !Hidden(fields[i].key, depth) :: UnwalkedValueSecretless(fields[i].value, depth)
  }

  predicate UnwalkedValueSecretless(v: Json, depth: nat)
    decreases v
  {
    match v
    case Obj(fields) => UnwalkedSecretless(fields, depth + 1)
    case Arr(items) =>
      forall i | 0 <= i < |items| ::
        if items[i].Obj? then UnwalkedSecretless(items[i].fields, depth + 1) else Secretless(items[i], depth)
    case _ => Secretless(v, depth)
  }

  lemma {:induction false} SecretlessFixed(v: Json, w: Json, depth: nat)
    requires Secretless(v, depth) && DifferInSecretsValue(v, w, depth)
    ensures v == w
    decreases v
  {
    match (v, w)
    case (Obj(f), Obj(g)) =>
      forall i | 0 <= i < |f| ensures f[i] == g[i] { SecretlessFixed(f[i].value, g[i].value, depth + 1); }
    case (Arr(s), Arr(t)) =>
      forall i | 0 <= i < |s| ensures s[i] == t[i] { SecretlessFixed(s[i], t[i], depth); }
    case (Tup(s), Tup(t)) =>
      forall i | 0 <= i < |s| ensures s[i] == t[i] { SecretlessFixed(s[i], t[i], depth); }
    case _ =>
  }

  lemma {:induction false} SecretsStayHidden(x: seq<Field>, y: seq<Field>, depth: nat)
    requires UnwalkedSecretless(x, depth) && DifferInSecrets(x, y, depth)
    ensures SameVisible(x, y, depth)
    decreases x
  {
    forall i | 0 <= i < |x| && !Hidden(x[i].key, depth) ensures SameVisibleValue(x[i].value, y[i].value, depth) {
      SecretValuesStayHidden(x[i].value, y[i].value, depth);
    }
  }

  lemma {:induction false} SecretValuesStayHidden(v: Json, w: Json, depth: nat)
    requires UnwalkedValueSecretless(v, depth) && DifferInSecretsValue(v, w, depth)
    ensures SameVisibleValue(v, w, depth)
    decreases v
  {
    match (v, w)
    case (Obj(f), Obj(g)) => SecretsStayHidden(f, g, depth + 1);
    case (Arr(s), Arr(t)) =>
      forall i | 0 <= i < |s|
        ensures if s[i].Obj? && t[i].Obj? then SameVisible(s[i].fields, t[i].fields, depth + 1) else s[i] == t[i]
      {
        if s[i].Obj? {
          SecretsStayHidden(s[i].fields, t[i].fields, depth + 1);
        } else {
          SecretlessFixed(s[i], t[i], depth);
        }
      }
    case _ => SecretlessFixed(v, w, depth);
  }

  /** Changes every hidden value, and nothing else. */
  function Change(fields: seq<Field>, depth: nat): (r: seq<Field>)
    ensures |r| == |fields|
    decreases fields
  {
    seq(|fields|, i requires 0 <= i < |fields| =>
      Field(fields[i].key,
            if Hidden(fields[i].key, depth) then (if fields[i].value == Atom(0) then Atom(1) else Atom(0))
            else ChangeValue(fields[i].value, depth)))
  }

  function ChangeValue(v: Json, depth: nat): Json
    decreases v
  {
    match v
    case Obj(fields) => Obj(Change(fields, depth + 1))
    case Arr(items) => Arr(seq(|items|, i requires 0 <= i < |items| => ChangeValue(items[i], depth)))
    case Tup(items) => Tup(seq(|items|, i requires 0 <= i < |items| => ChangeValue(items[i], depth)))
    case _ => v
  }

  lemma {:induction false} ChangeIsSecret(fields: seq<Field>, depth: nat)
    ensures DifferInSecrets(fields, Change(fields, depth), depth)
    decreases fields
  {
    forall i | 0 <= i < |fields| && !Hidden(fields[i].key, depth)
      ensures DifferInSecretsValue(fields[i].value, ChangeValue(fields[i].value, depth), depth)
    {
      ChangeValueIsSecret(fields[i].value, depth);
    }
  }

  lemma {:induction false} ChangeValueIsSecret(v: Json, depth: nat)
    ensures DifferInSecretsValue(v, ChangeValue(v, depth), depth)
    decreases v
  {
    match v
    case Obj(fields) => ChangeIsSecret(fields, depth + 1);
    case Arr(items) =>
      forall i | 0 <= i < |items| ensures DifferInSecretsValue(items[i], ChangeValue(items[i], depth), depth) {
        ChangeValueIsSecret(items[i], depth);
      }
    case Tup(items) =>
      forall i | 0 <= i < |items| ensures DifferInSecretsValue(items[i], ChangeValue(items[i], depth), depth) {
        ChangeValueIsSecret(items[i], depth);
      }
    case _ =>
  }

  lemma {:induction false} UnchangedIsSecretless(v: Json, depth: nat)
    requires ChangeValue(v, depth) == v
    ensures Secretless(v, depth)
    decreases v
  {
    match v
    case Obj(fields) =>
      forall i | 0 <= i < |fields| ensures !Hidden(fields[i].key, depth + 1) && Secretless(fields[i].value, depth + 1) {
        assert Change(fields, depth + 1)[i] == fields[i];
        UnchangedIsSecretless(fields[i].value, depth + 1);
      }
    case Arr(items) =>
      forall i | 0 <= i < |items| ensures Secretless(items[i], depth) {
        assert ChangeValue(v, depth).items[i] == items[i];
        UnchangedIsSecretless(items[i], depth);
      }
    case Tup(items) =>
      forall i | 0 <= i < |items| ensures Secretless(items[i], depth) {
        assert ChangeValue(v, depth).items[i] == items[i];
        UnchangedIsSecretless(items[i], depth);
      }
    case _ =>
  }

  lemma {:induction false} UnseenChangeMeansSecretless(fields: seq<Field>, depth: nat)
    requires SameVisible(fields, Change(fields, depth), depth)
    ensures UnwalkedSecretless(fields, depth)
    decreases fields
  {
    forall i | 0 <= i < |fields| && !Hidden(fields[i].key, depth)
      ensures UnwalkedValueSecretless(fields[i].value, depth)
    {
      UnseenValueChange(fields[i].value, depth);
    }
  }

  lemma {:induction false} UnseenValueChange(v: Json, depth: nat)
    requires SameVisibleValue(v, ChangeValue(v, depth), depth)
    ensures UnwalkedValueSecretless(v, depth)
    decreases v
  {
    match v
    case Obj(fields) => UnseenChangeMeansSecretless(fields, depth + 1);
    case Arr(items) =>
      forall i | 0 <= i < |items|
        ensures if items[i].Obj? then UnwalkedSecretless(items[i].fields, depth + 1) else Secretless(items[i], depth)
      {
        assert ChangeValue(v, depth).items[i] == ChangeValue(items[i], depth);
        if items[i].Obj? {
          UnseenChangeMeansSecretless(items[i].fields, depth + 1);
        } else {
          UnchangedIsSecretless(items[i], depth);
        }
      }
    case _ => UnchangedIsSecretless(v, depth);
  }

  /** The output of an inventory is independent of all its secrets exactly when no tuple, and no list
      directly inside another list, holds a sensitive key. */
  lemma {:induction false} NonInterference(x: seq<Field>, depth: nat)
    ensures (forall y: seq<Field> :: DifferInSecrets(x, y, depth) ==> Redact(x, depth) == Redact(y, depth))
            <==> UnwalkedSecretless(x, depth)
  {
    if UnwalkedSecretless(x, depth) {
      forall y: seq<Field> | DifferInSecrets(x, y, depth) ensures Redact(x, depth) == Redact(y, depth) {
        SecretsStayHidden(x, y, depth);
        OutputShowsVisible(x, y, depth);
      }
    } else {
      ChangeIsSecret(x, depth);
      var y := Change(x, depth);
      OutputShowsVisible(x, y, depth);
      if SameVisible(x, y, depth) { UnseenChangeMeansSecretless(x, depth); }
      assert DifferInSecrets(x, y, depth) && Redact(x, depth) != Redact(y, depth);
    }
  }

  /** Concrete inventories whose secret shows: a dictionary in a list in a list, or in a tuple. */
  lemma {:induction false} UnwalkedSecretShows(v: Json)
    ensures IsSensitive("api_key")
    ensures var x := [Field("ms", Arr([Arr([Obj([Field("api_key", v)])])]))]; Redact(x, 0) == x
    ensures var x := [Field("ms", Tup([Obj([Field("api_key", v)])]))]; Redact(x, 0) == x
  {
    SensitiveExamples();
    var x := [Field("ms", Arr([Arr([Obj([Field("api_key", v)])])]))];
    var y := [Field("ms", Tup([Obj([Field("api_key", v)])]))];
    ShortIsPlain("ms");
    assert RedactValue(x[0].value, 0) == x[0].value;
    assert Redact(x, 0)[0] == x[0] && Redact(y, 0)[0] == y[0];
  }

  // ---- No secret left in the output ----

  /** Every sensitive key, at any depth and inside any list or tuple, holds the marker text. */
  predicate Scrubbed(v: Json) {
    match v
    case Obj(fields) =>
      forall i | 0 <= i < |fields| ::
        (IsSensitive(fields[i].key) ==> fields[i].value == Str(REDACTED)) && Scrubbed(fields[i].value)
    case Arr(items) => forall i | 0 <= i < |items| :: Scrubbed(items[i])
    case Tup(items) => forall i | 0 <= i < |items| :: Scrubbed(items[i])
    case _ => true
  }

  predicate UnwalkedScrubbed(fields: seq<Field>, depth: nat)
    decreases fields
  {
    forall i | 0 <= i < |fields| && !Hidden(fields[i].key, depth) :: UnwalkedValueScrubbed(fields[i].value, depth)
  }

  predicate UnwalkedValueScrubbed(v: Json, depth: nat)
    decreases v
  {
    match v
    case Obj(fields) => UnwalkedScrubbed(fields, depth + 1)
    case Arr(items) =>
      forall i | 0 <= i < |items| ::
        if items[i].Obj? then UnwalkedScrubbed(items[i].fields, depth + 1) else Scrubbed(items[i])
    case _ => Scrubbed(v)
  }

  /** Every sensitive key of the output holds the marker text exactly when that was already so in
      each tuple of the input and in each list directly inside another list. */
  lemma {:induction false} OutputScrubbed(fields: seq<Field>, depth: nat)
    ensures Scrubbed(Obj(Redact(fields, depth))) <==> UnwalkedScrubbed(fields, depth)
    decreases fields
  {
    var r := Redact(fields, depth);
    forall i | 0 <= i < |fields|
      ensures ((IsSensitive(r[i].key) ==> r[i].value == Str(REDACTED)) && Scrubbed(r[i].value))
              <==> (Hidden(fields[i].key, depth) || UnwalkedValueScrubbed(fields[i].value, depth))
    {
      if !Hidden(fields[i].key, depth) { ValueScrubbed(fields[i].value, depth); }
    }
  }

  lemma {:induction false} ValueScrubbed(v: Json, depth: nat)
    ensures Scrubbed(RedactValue(v, depth)) <==> UnwalkedValueScrubbed(v, depth)
    decreases v
  {
    match v
    case Obj(fields) => OutputScrubbed(fields, depth + 1);
    case Arr(items) =>
      var r := RedactValue(v, depth).items;
      forall i | 0 <= i < |items|
        ensures Scrubbed(r[i])
                <==> if items[i].Obj? then UnwalkedScrubbed(items[i].fields, depth + 1) else Scrubbed(items[i])
      {
        if items[i].Obj? { OutputScrubbed(items[i].fields, depth + 1); }
      }
    case _ =>
  }
}
