/** The text that is hashed to name a cache entry, and when it tells requests apart. */
module CacheKeys {
  import opened Results
  import opened Text

  const SEP := "||"

  /** `_compute_cache_key`: the hashed text. SHA-256 is taken to be injective, so the text is the key. */
  function CombinedText(prompt: string, model: string, system: string): string {
    model + SEP + system + SEP + prompt
  }

  /** The prompt as extended by the function API; `temperature` and `maxTokens` are rendered numbers. */
  function CachePrompt(prompt: string, temperature: string, maxTokens: string): string {
    prompt + "||temp=" + temperature + "||max=" + maxTokens
  }

  /** The first place where `needle` occurs, or the length of `s`. */
  function Find(s: string, needle: string): (i: nat)
    ensures i <= |s|
    ensures forall j | 0 <= j < i :: !OccursAt(s, needle, j)
    ensures i < |s| ==> OccursAt(s, needle, i)
  {
    FindFrom(s, needle, 0)
  }

  function FindFrom(s: string, needle: string, from: nat): (i: nat)
    requires from <= |s|
    ensures from <= i <= |s|
    ensures forall j | from <= j < i :: !OccursAt(s, needle, j)
    ensures i < |s| ==> OccursAt(s, needle, i)
    decreases |s| - from
  {
    if from == |s| || OccursAt(s, needle, from) then from else FindFrom(s, needle, from + 1)
  }

  /** Splits a text at its first separator. */
  function SplitFirst(s: string): Option<(string, string)> {
    var i := Find(s, SEP);
    if i == |s| then None else Some((s[..i], s[i + 2..]))
  }

  /** Reads a combined text back: model and system up to their first separators, the rest is the prompt. */
  function Decode(text: string): Option<(string, string, string)> {
    match SplitFirst(text)
    case None => None
    case Some((model, rest)) =>
      match SplitFirst(rest)
      case None => None
      case Some((system, prompt)) => Some((prompt, model, system))
  }

  /** A part that a following separator cannot blur: it neither contains nor runs into one. */
  predicate Separable(part: string) {
    !Contains(part, SEP) && (part == [] || part[|part| - 1] != '|')
  }

  /** A separator that starts inside the part betrays that the part is not separable ... */
  lemma {:induction false} EarlierSeparator(part: string, rest: string, i: nat)
    requires i < |part| && OccursAt(part + SEP + rest, SEP, i)
    ensures !Separable(part)
  {
    var s := part + SEP + rest;
    assert s[i..i + 2] == SEP;
    assert part[i] == s[i..i + 2][0] == '|';
    if i + 1 < |part| {
      assert part[i..i + 2] == s[i..i + 2];
      assert OccursAt(part, SEP, i);
    }
  }

  /** ... and a part that is not separable has one. */
  lemma {:induction false} InseparableHasEarlier(part: string, rest: string) returns (i: nat)
    requires !Separable(part)
    ensures i < |part| && OccursAt(part + SEP + rest, SEP, i)
  {
    var s := part + SEP + rest;
    if j: nat :| j <= |part| && OccursAt(part, SEP, j) {
      i := j;
      assert s[i..i + 2] == part[i..i + 2];
    } else {
      i := |part| - 1;
      assert s[i..i + 2] == SEP;
    }
  }

  /** A part is cut off at exactly the separator that follows it just when it is separable. */
  lemma {:induction false} SplitAfterPart(part: string, rest: string)
    ensures SplitFirst(part + SEP + rest) == Some((part, rest)) <==> Separable(part)
  {
    var s := part + SEP + rest;
    var i := Find(s, SEP);
    assert s[|part|..|part| + 2] == SEP;
    assert OccursAt(s, SEP, |part|);
    if Separable(part) {
      if i < |part| { EarlierSeparator(part, rest, i); }
      assert s[..|part|] == part && s[|part| + 2..] == rest;
    } else {
      var j := InseparableHasEarlier(part, rest);
      assert i <= j < |part|;
    }
  }

  /** Decoding the combined text gives the request back, for whatever prompt, exactly when model and
      system text are separable. */
  lemma {:induction false} DecodesIffSeparable(prompt: string, model: string, system: string)
    ensures Decode(CombinedText(prompt, model, system)) == Some((prompt, model, system))
            <==> Separable(model) && Separable(system)
  {
    var rest := system + SEP + prompt;
    assert CombinedText(prompt, model, system) == model + SEP + rest;
    SplitAfterPart(model, rest);
    SplitAfterPart(system, prompt);
  }

  predicate NoBar(s: string) {
    '|' !in s
  }

  lemma {:induction false} BarBeforeSuffix(a: string, x: string, s: string)
    requires s == a + ['|'] + x && NoBar(x)
    ensures s[|s| - |x| - 1] == '|'
    ensures forall k | |s| - |x| <= k < |s| :: s[k] != '|'
  {
    forall k | |s| - |x| <= k < |s| ensures s[k] != '|' {
      assert s[k] == x[k - |a| - 1];
      assert x[k - |a| - 1] in x;
    }
  }

  lemma {:induction false} SuffixesAgree(a: string, b: string, x: string, y: string)
    requires a + ['|'] + x == b + ['|'] + y && NoBar(x) && NoBar(y)
    ensures x == y && a == b
  {
    var s := a + ['|'] + x;
    BarBeforeSuffix(a, x, s);
    BarBeforeSuffix(b, y, s);
    assert |x| == |y|;
    assert s[..|a|] == a && (b + ['|'] + y)[..|b|] == b;
    assert s[|a| + 1..] == x && (b + ['|'] + y)[|b| + 1..] == y;
  }

  /** The two rendered numbers can be read off the end of an extended prompt. */
  lemma {:induction false} CachePromptInjective(p: string, t: string, m: string, p': string, t': string, m': string)
    requires NoBar(t) && NoBar(m) && NoBar(t') && NoBar(m')
    requires CachePrompt(p, t, m) == CachePrompt(p', t', m')
    ensures p == p' && t == t' && m == m'
  {
    var a, a' := p + "||temp=" + t + "|", p' + "||temp=" + t' + "|";
    assert CachePrompt(p, t, m) == a + ['|'] + ("max=" + m);
    assert CachePrompt(p', t', m') == a' + ['|'] + ("max=" + m');
    SuffixesAgree(a, a', "max=" + m, "max=" + m');
    assert ("max=" + m)[4..] == m && ("max=" + m')[4..] == m';
    assert a[..|a| - 1] == p + "|" + ['|'] + ("temp=" + t);
    assert a'[..|a'| - 1] == p' + "|" + ['|'] + ("temp=" + t');
    SuffixesAgree(p + "|", p' + "|", "temp=" + t, "temp=" + t');
    assert ("temp=" + t)[5..] == t && ("temp=" + t')[5..] == t';
    assert (p + "|")[..|p|] == p && (p' + "|")[..|p'|] == p';
  }

  /** A request as the function API keys it. */
  datatype Keyed = Keyed(model: string, system: string, prompt: string, temperature: string, maxTokens: string)

  function KeyText(q: Keyed): string {
    CombinedText(CachePrompt(q.prompt, q.temperature, q.maxTokens), q.model, q.system)
  }

  lemma {:induction false} CombinedOfExtended(prompt: string, temperature: string, maxTokens: string, model: string,
                                              system: string)
    ensures CombinedText(CachePrompt(prompt, temperature, maxTokens), model, system)
            == model + "||" + system + "||" + prompt + "||temp=" + temperature + "||max=" + maxTokens
  {
    var a, b, c := model + "||" + system + "||", prompt + "||temp=" + temperature, "||max=" + maxTokens;
    assert a + (b + c) == a + b + c;
    assert a + (prompt + "||temp=" + temperature) == a + prompt + "||temp=" + temperature;
  }

  predicate WellFormed(q: Keyed) {
    Separable(q.model) && Separable(q.system) && NoBar(q.temperature) && NoBar(q.maxTokens)
  }

  /** Among well-formed requests, with any prompts whatever, equal key texts mean equal requests. */
  lemma {:induction false} KeyTextInjective(q: Keyed, r: Keyed)
    requires WellFormed(q) && WellFormed(r) && KeyText(q) == KeyText(r)
    ensures q == r
  {
    var p, p' := CachePrompt(q.prompt, q.temperature, q.maxTokens), CachePrompt(r.prompt, r.temperature, r.maxTokens);
    DecodesIffSeparable(p, q.model, q.system);
    DecodesIffSeparable(p', r.model, r.system);
    CachePromptInjective(q.prompt, q.temperature, q.maxTokens, r.prompt, r.temperature, r.maxTokens);
  }

  /** A text with a separator at `at` splits, no later than there, into a separable part and the rest. */
  lemma {:induction false} SplitJoins(s: string, at: nat) returns (part: string, rest: string)
    requires OccursAt(s, SEP, at)
    ensures SplitFirst(s) == Some((part, rest)) && s == part + SEP + rest
    ensures Separable(part) && |part| <= at
  {
    var i := Find(s, SEP);
    part, rest := s[..i], s[i + 2..];
    assert s[i..i + 2] == SEP;
    assert s == part + SEP + rest;
    if !Separable(part) {
      var j := InseparableHasEarlier(part, rest);
      assert false;
    }
  }

  lemma {:induction false} OccursInRest(first: string, rest: string, needle: string, at: nat)
    requires at >= |first| && OccursAt(first + rest, needle, at)
    ensures OccursAt(rest, needle, at - |first|)
  {
    assert (first + rest)[at..at + |needle|] == rest[at - |first|..at - |first| + |needle|];
  }

  /** Every combined text can be read back, as one triple whose model and system text are separable. */
  lemma {:induction false} CombinedTextDecodes(prompt: string, model: string, system: string)
    returns (p: string, m: string, s: string)
    ensures var text := CombinedText(prompt, model, system);
            Decode(text) == Some((p, m, s)) && CombinedText(p, m, s) == text
    ensures Separable(m) && Separable(s)
    ensures |p| >= |prompt| && p[|p| - |prompt|..] == prompt
  {
    var text := CombinedText(prompt, model, system);
    var head := model + SEP + system;
    assert text == model + SEP + (system + SEP + prompt) == head + SEP + prompt;
    SeparatorBetween(model, system + SEP + prompt);
    SeparatorBetween(head, prompt);
    var rest;
    m, rest := SplitJoins(text, |model|);
    OccursInRest(m + SEP, rest, SEP, |head|);
    s, p := SplitJoins(rest, |head| - |m + SEP|);
    Regroup(m, s, p);
    LongerEnd(m + SEP + s + SEP, p, head + SEP, prompt);
  }

  lemma {:induction false} LongerEnd(a: string, b: string, c: string, d: string)
    requires a + b == c + d && |a| <= |c|
    ensures |b| >= |d| && b[|b| - |d|..] == d
  {
    assert b == (a + b)[|a|..] && d == (c + d)[|c|..];
    assert b[|b| - |d|..] == (a + b)[|a| + |b| - |d|..];
  }

  lemma {:induction false} SeparatorBetween(a: string, b: string)
    ensures OccursAt(a + SEP + b, SEP, |a|)
  {
    assert (a + SEP + b)[|a|..|a| + 2] == SEP;
  }

  lemma {:induction false} Regroup(m: string, s: string, p: string)
    ensures m + SEP + (s + SEP + p) == CombinedText(p, m, s)
  {
  }

  /** Every request whose model or system text is not separable shares its text, whatever the prompt,
      with another request: the one that reading the text back gives. */
  lemma {:induction false} InseparableCollides(prompt: string, model: string, system: string)
    returns (p: string, m: string, s: string)
    requires !(Separable(model) && Separable(system))
    ensures CombinedText(p, m, s) == CombinedText(prompt, model, system)
    ensures (p, m, s) != (prompt, model, system) && Separable(m) && Separable(s)
    ensures |p| >= |prompt| && p[|p| - |prompt|..] == prompt
  {
    p, m, s := CombinedTextDecodes(prompt, model, system);
    DecodesIffSeparable(prompt, model, system);
  }

  /** A separator inside the model or the system text lets different requests share a key. */
  lemma {:induction false} SeparatorInsideCollides(a: string, b: string, c: string, prompt: string)
    ensures CombinedText(prompt, a + SEP + b, c) == CombinedText(prompt, a, b + SEP + c)
    ensures a + SEP + b != a
  {
    assert a + SEP + b + SEP + c + SEP + prompt == a + SEP + (b + SEP + c) + SEP + prompt;
    assert |a + SEP + b| > |a|;
  }

  /** So does a bar at the end of the model text or of the system text. */
  lemma {:induction false} TrailingBarCollides(a: string, c: string, prompt: string)
    ensures CombinedText(prompt, a + "|", c) == CombinedText(prompt, a, "|" + c)
    ensures CombinedText(prompt, a, c + "|") == CombinedText("|" + prompt, a, c)
  {
    assert a + "|" + SEP + c + SEP + prompt == a + SEP + ("|" + c) + SEP + prompt;
    assert a + SEP + (c + "|") + SEP + prompt == a + SEP + c + SEP + ("|" + prompt);
  }

  lemma {:induction false} LongerPrompt(front: string, prompt: string, temperature: string, maxTokens: string)
    ensures front + CachePrompt(prompt, temperature, maxTokens) == CachePrompt(front + prompt, temperature, maxTokens)
  {
  }

  /** Every request of the function API whose model or system text is not separable shares its key with
      another such request, of the same temperature and limit and with separable parts. */
  lemma {:induction false} InseparableRequestCollides(q: Keyed) returns (r: Keyed)
    requires !(Separable(q.model) && Separable(q.system))
    ensures r != q && KeyText(r) == KeyText(q) && r.temperature == q.temperature && r.maxTokens == q.maxTokens
    ensures Separable(r.model) && Separable(r.system)
  {
    var extended := CachePrompt(q.prompt, q.temperature, q.maxTokens);
    var p, m, s := InseparableCollides(extended, q.model, q.system);
    var front := p[..|p| - |extended|];
    assert p == front + extended;
    LongerPrompt(front, q.prompt, q.temperature, q.maxTokens);
    r := Keyed(m, s, front + q.prompt, q.temperature, q.maxTokens);
  }
}
