/** Text generation behind the response cache: the remote gate, the choice of provider, and
    when caching cannot be noticed. */
module LlmClient {
  import opened CacheKeys
  import opened CacheState
  import opened CacheRuns
  import opened FileWrites
  import opened Results
  import opened Text
  import ResponseCache

  /** `temperature` and `maxTokens` are rendered numbers. */
  datatype Request = Request(model: string, prompt: string, system: Option<string>, temperature: string,
                             maxTokens: string)

  datatype Adapter = Local | Ollama | WindowsAi | AzureFoundry | AzureOpenAi | GitHub | OpenAi | Gemini | Claude

  datatype Sampling = AdapterDefault | Sampling(temperature: string, maxTokens: string)

  /** What an adapter is called with. */
  datatype Call = Call(adapter: Adapter, model: string, prompt: string, system: Option<string>, sampling: Sampling)

  /** The providers: a text or the message of the exception raised, determined by the call. */
  type Providers = Call -> Result<string, string>

  datatype Failure = RemoteDisabled | UnknownModel | ProviderFailed(message: string)

  type Reply = Result<string, Failure>

  // ---- The remote gate and the dispatch ----

  const DEFAULT_ALLOWED := ["local:", "gh:", "windows-ai:", "ollama:", "aitk:", "ai-toolkit:"]

  const REMOTE_PREFIXES := ["azure-foundry:", "azure-openai:", "openai:", "gemini:", "claude:"]

  predicate NamesHostedFamily(lower: string) {
    Contains(lower, "gpt") || Contains(lower, "gemini") || Contains(lower, "claude")
  }

  /** `_enforce_remote_gate`: whether the model is refused while remote providers are off. */
  predicate Gated(model: string) {
    var lower := Lower(model);
    && !StartsWithAny(lower, DEFAULT_ALLOWED)
    && (StartsWithAny(lower, REMOTE_PREFIXES) || NamesHostedFamily(lower))
  }

  /** `_dispatch_provider` */
  function Route(q: Request): Option<Call> {
    var lower := Lower(q.model);
    var sampling := Sampling(q.temperature, q.maxTokens);
    if StartsWith(lower, "local:") then Some(Call(Local, q.model, q.prompt, q.system, sampling))
    else if StartsWith(lower, "ollama:") then Some(Call(Ollama, q.model, q.prompt, q.system, AdapterDefault))
    else if StartsWith(lower, "windows-ai:") then Some(Call(WindowsAi, q.model, q.prompt, q.system, sampling))
    else if StartsWith(lower, "azure-foundry:") then Some(Call(AzureFoundry, q.model, q.prompt, q.system, sampling))
    else if StartsWith(lower, "azure-openai:") then Some(Call(AzureOpenAi, q.model, q.prompt, q.system, sampling))
    else if StartsWith(lower, "gh:") then Some(Call(GitHub, q.model, q.prompt, q.system, AdapterDefault))
    else if StartsWith(lower, "openai:") then Some(Call(OpenAi, q.model[7..], q.prompt, q.system, sampling))
    else if StartsWith(lower, "gemini:") then Some(Call(Gemini, q.model[7..], q.prompt, q.system, AdapterDefault))
    else if StartsWith(lower, "claude:") then Some(Call(Claude, q.model[7..], q.prompt, q.system, AdapterDefault))
    else if Contains(lower, "gemini") then Some(Call(Gemini, q.model, q.prompt, q.system, AdapterDefault))
    else if Contains(lower, "claude") then Some(Call(Claude, q.model, q.prompt, q.system, AdapterDefault))
    else if Contains(lower, "gpt") then Some(Call(OpenAi, q.model, q.prompt, q.system, sampling))
    else None
  }

  /** The adapters that call a hosted service other than GitHub Models. */
  predicate IsRemote(a: Adapter) {
    a in {AzureFoundry, AzureOpenAi, OpenAi, Gemini, Claude}
  }

  predicate ReachesRemote(q: Request) {
    Route(q).Some? && IsRemote(Route(q).value.adapter)
  }

  predicate ToolkitName(lower: string) {
    StartsWith(lower, "aitk:") || StartsWith(lower, "ai-toolkit:")
  }

  lemma {:induction false} AllowedPrefixes(lower: string)
    ensures StartsWithAny(lower, DEFAULT_ALLOWED)
            <==> StartsWith(lower, "local:") || StartsWith(lower, "gh:") || StartsWith(lower, "windows-ai:")
                 || StartsWith(lower, "ollama:") || ToolkitName(lower)
  {
    assert DEFAULT_ALLOWED[0] == "local:" && DEFAULT_ALLOWED[1] == "gh:" && DEFAULT_ALLOWED[2] == "windows-ai:"
        && DEFAULT_ALLOWED[3] == "ollama:" && DEFAULT_ALLOWED[4] == "aitk:" && DEFAULT_ALLOWED[5] == "ai-toolkit:";
  }

  lemma {:induction false} RemotePrefixes(lower: string)
    ensures StartsWithAny(lower, REMOTE_PREFIXES)
            <==> StartsWith(lower, "azure-foundry:") || StartsWith(lower, "azure-openai:")
                 || StartsWith(lower, "openai:") || StartsWith(lower, "gemini:") || StartsWith(lower, "claude:")
  {
    assert REMOTE_PREFIXES[0] == "azure-foundry:" && REMOTE_PREFIXES[1] == "azure-openai:"
        && REMOTE_PREFIXES[2] == "openai:" && REMOTE_PREFIXES[3] == "gemini:" && REMOTE_PREFIXES[4] == "claude:";
  }

  /** A name with a toolkit prefix has none of the prefixes the dispatch knows. */
  lemma {:induction false} ToolkitHasNoOtherPrefix(lower: string, p: string)
    requires ToolkitName(lower) && |p| >= 2 && (p[0] != 'a' || p[1] != 'i')
    ensures !StartsWith(lower, p)
  {
    assert lower[0] == 'a' && lower[1] == 'i';
  }

  /** The gate refuses exactly the models whose dispatch would reach a remote adapter, except those
      under a toolkit prefix. With remote providers off a remote adapter is therefore reached just
      by names that start with `aitk:` or `ai-toolkit:` and contain a hosted family's name. */
  lemma {:induction false} GateStopsRemotes(q: Request)
    ensures Gated(q.model) <==> ReachesRemote(q) && !ToolkitName(Lower(q.model))
    ensures ReachesRemote(q) && !Gated(q.model) <==> ToolkitName(Lower(q.model)) && NamesHostedFamily(Lower(q.model))
  {
    var lower := Lower(q.model);
    AllowedPrefixes(lower);
    RemotePrefixes(lower);
    if ToolkitName(lower) {
      ToolkitHasNoOtherPrefix(lower, "local:");
      ToolkitHasNoOtherPrefix(lower, "ollama:");
      ToolkitHasNoOtherPrefix(lower, "windows-ai:");
      ToolkitHasNoOtherPrefix(lower, "azure-foundry:");
      ToolkitHasNoOtherPrefix(lower, "azure-openai:");
      ToolkitHasNoOtherPrefix(lower, "gh:");
      ToolkitHasNoOtherPrefix(lower, "openai:");
      ToolkitHasNoOtherPrefix(lower, "gemini:");
      ToolkitHasNoOtherPrefix(lower, "claude:");
    } else if StartsWith(lower, "gh:") {
      assert !StartsWith(lower, "azure-foundry:") && !StartsWith(lower, "azure-openai:") by {
        assert lower[0] == 'g';
      }
    }
  }

  // ---- What the dispatch calls ----

  function PrefixOf(a: Adapter): string {
    match a
    case Local => "local:"
    case Ollama => "ollama:"
    case WindowsAi => "windows-ai:"
    case AzureFoundry => "azure-foundry:"
    case AzureOpenAi => "azure-openai:"
    case GitHub => "gh:"
    case OpenAi => "openai:"
    case Gemini => "gemini:"
    case Claude => "claude:"
  }

  /** The adapter whose family word the name contains, the first of the three. */
  function FamilyOf(lower: string): Option<Adapter> {
    if Contains(lower, "gemini") then Some(Gemini)
    else if Contains(lower, "claude") then Some(Claude)
    else if Contains(lower, "gpt") then Some(OpenAi)
    else None
  }

  ghost predicate NoPrefixFits(lower: string) {
    forall a: Adapter :: !StartsWith(lower, PrefixOf(a))
  }

  /** At most one prefix starts a name. */
  lemma {:induction false} PrefixesExclusive(lower: string, a: Adapter, b: Adapter)
    requires a != b
    ensures !StartsWith(lower, PrefixOf(a)) || !StartsWith(lower, PrefixOf(b))
  {
    var p, q := PrefixOf(a), PrefixOf(b);
    assert p[0] != q[0] || p[1] != q[1] || (|p| > 6 && |q| > 6 && p[6] != q[6]);
    if StartsWith(lower, p) { assert lower[0] == p[0] && lower[1] == p[1] && (|p| > 6 ==> lower[6] == p[6]); }
  }

  /** The adapter's prefix, and no other, starts the name. */
  predicate HasPrefixOf(lower: string, a: Adapter) {
    && (StartsWith(lower, "local:") <==> a == Local)
    && (StartsWith(lower, "ollama:") <==> a == Ollama)
    && (StartsWith(lower, "windows-ai:") <==> a == WindowsAi)
    && (StartsWith(lower, "azure-foundry:") <==> a == AzureFoundry)
    && (StartsWith(lower, "azure-openai:") <==> a == AzureOpenAi)
    && (StartsWith(lower, "gh:") <==> a == GitHub)
    && (StartsWith(lower, "openai:") <==> a == OpenAi)
    && (StartsWith(lower, "gemini:") <==> a == Gemini)
    && (StartsWith(lower, "claude:") <==> a == Claude)
  }

  lemma {:induction false} NoOtherPrefix(lower: string, a: Adapter)
    requires StartsWith(lower, PrefixOf(a))
    ensures HasPrefixOf(lower, a)
  {
    forall b: Adapter ensures StartsWith(lower, PrefixOf(b)) <==> b == a {
      if b != a { PrefixesExclusive(lower, a, b); }
    }
    assert PrefixOf(Local) == "local:" && PrefixOf(Ollama) == "ollama:" && PrefixOf(WindowsAi) == "windows-ai:";
    assert PrefixOf(AzureFoundry) == "azure-foundry:" && PrefixOf(AzureOpenAi) == "azure-openai:";
    assert PrefixOf(GitHub) == "gh:" && PrefixOf(OpenAi) == "openai:";
    assert PrefixOf(Gemini) == "gemini:" && PrefixOf(Claude) == "claude:";
  }

  lemma {:induction false} OnePrefixRoutes(q: Request, a: Adapter)
    requires HasPrefixOf(Lower(q.model), a)
    ensures Route(q).Some? && Route(q).value.adapter == a
    ensures Route(q).value.model == if a in {OpenAi, Gemini, Claude} then q.model[7..] else q.model
  {
  }

  lemma {:induction false} PrefixDecides(q: Request, a: Adapter)
    requires StartsWith(Lower(q.model), PrefixOf(a))
    ensures Route(q).Some? && Route(q).value.adapter == a
    ensures Route(q).value.model == if a in {OpenAi, Gemini, Claude} then q.model[|PrefixOf(a)|..] else q.model
  {
    NoOtherPrefix(Lower(q.model), a);
    OnePrefixRoutes(q, a);
  }

  lemma {:induction false} FamilyDecides(q: Request)
    requires NoPrefixFits(Lower(q.model))
    ensures match FamilyOf(Lower(q.model))
            case None => Route(q).None?
            case Some(a) => Route(q).Some? && Route(q).value.adapter == a && Route(q).value.model == q.model
  {
    assert PrefixOf(Local) == "local:" && PrefixOf(Ollama) == "ollama:" && PrefixOf(WindowsAi) == "windows-ai:";
    assert PrefixOf(AzureFoundry) == "azure-foundry:" && PrefixOf(AzureOpenAi) == "azure-openai:";
    assert PrefixOf(GitHub) == "gh:" && PrefixOf(OpenAi) == "openai:";
    assert PrefixOf(Gemini) == "gemini:" && PrefixOf(Claude) == "claude:";
  }

  /** What is called for a request, in terms of its name: the adapter whose prefix starts the name; if there
      is none, the adapter of the family word in it; and no adapter if there is none of those either. The
      name is handed on whole, but without its prefix to the three hosted services that have one. Prompt
      and system text are the request's, and temperature and limit go to five of the adapters. */
  lemma {:induction false} RouteMeans(q: Request, a: Adapter)
    ensures var lower := Lower(q.model);
            && (Route(q).None? <==> NoPrefixFits(lower) && FamilyOf(lower).None?)
            && (Route(q).Some? && Route(q).value.adapter == a
                <==> StartsWith(lower, PrefixOf(a)) || (NoPrefixFits(lower) && FamilyOf(lower) == Some(a)))
    ensures Route(q).Some? ==>
              && Route(q).value.prompt == q.prompt && Route(q).value.system == q.system
              && Route(q).value.model == (if StartsWith(Lower(q.model), PrefixOf(Route(q).value.adapter))
                                             && Route(q).value.adapter in {OpenAi, Gemini, Claude} then
                                            q.model[|PrefixOf(Route(q).value.adapter)|..]
                                          else q.model)
              && Route(q).value.sampling
                 == (if Route(q).value.adapter in {Local, WindowsAi, AzureFoundry, AzureOpenAi, OpenAi} then
                       Sampling(q.temperature, q.maxTokens)
                     else AdapterDefault)
  {
    RouteHandsOn(q);
    if b: Adapter :| StartsWith(Lower(q.model), PrefixOf(b)) {
      PrefixDecides(q, b);
      if StartsWith(Lower(q.model), PrefixOf(a)) { PrefixDecides(q, a); }
    } else {
      FamilyDecides(q);
    }
  }

  lemma {:induction false} RouteHandsOn(q: Request)
    ensures Route(q).Some? ==>
              && Route(q).value.prompt == q.prompt && Route(q).value.system == q.system
              && Route(q).value.sampling
                 == (if Route(q).value.adapter in {Local, WindowsAi, AzureFoundry, AzureOpenAi, OpenAi} then
                       Sampling(q.temperature, q.maxTokens)
                     else AdapterDefault)
  {
  }

  /** Names that differ in the case of letters alone are gated alike and go to the same adapter. */
  lemma {:induction false} DispatchIgnoresCase(q: Request, model: string)
    requires SameTextButCase(q.model, model)
    ensures Gated(q.model) <==> Gated(model)
    ensures var r := q.(model := model);
            && Route(r).Some? == Route(q).Some?
            && (Route(q).Some? ==> Route(r).value == Route(q).value.(model := Route(r).value.model))
  {
    LowerIdentifiesCase(q.model, model);
    var r := q.(model := model);
    var a := if Route(q).Some? then Route(q).value.adapter else Local;
    RouteMeans(q, a);
    RouteMeans(r, a);
  }

  // ---- One request ----

  /** `generate_text` with caching off. */
  function Uncached(q: Request, remote: bool, providers: Providers): Reply {
    if Gated(q.model) && !remote then Err(RemoteDisabled)
    else match Route(q)
      case None => Err(UnknownModel)
      case Some(call) => match providers(call)
        case Ok(text) => Ok(text)
        case Err(message) => Err(ProviderFailed(message))
  }

  /** `system_instruction or ""` */
  function OrEmpty(system: Option<string>): string {
    if system.Some? then system.value else ""
  }

  function CacheKey(q: Request): Key {
    KeyText(Keyed(q.model, OrEmpty(q.system), q.prompt, q.temperature, q.maxTokens))
  }

  /** The key of a request, spelled out: a missing system text counts as an empty one. */
  lemma {:induction false} CacheKeyText(q: Request)
    ensures CacheKey(q)
            == q.model + "||" + (match q.system case Some(text) => text case None => "") + "||" + q.prompt
               + "||temp=" + q.temperature + "||max=" + q.maxTokens
  {
    var system := match q.system case Some(text) => text case None => "";
    CombinedOfExtended(q.prompt, q.temperature, q.maxTokens, q.model, system);
  }

  /** What surrounds one call: whether the environment asks for caching and allows remote providers, the
      times of the lookup and of the store, and how reading and writing the entry file go. */
  datatype Circumstance = Circumstance(cacheOn: bool, remote: bool, asked: int, answered: int, readable: bool,
                                       w: WriteEnd)

  predicate Storable(reply: Reply) {
    reply.Ok? && reply.value != ""
  }

  /** `generate_text` */
  function Generate(s: State, q: Request, c: Circumstance, providers: Providers): (State, Reply) {
    var (looked, hit) := if c.cacheOn then Get(s, CacheKey(q), c.asked, c.readable) else (s, None);
    match hit
    case Some(text) => (looked, Ok(text))
    case None =>
      var reply := Uncached(q, c.remote, providers);
      (if c.cacheOn && Storable(reply) then Set(looked, CacheKey(q), reply.value, c.answered, c.w) else looked, reply)
  }

  /** `generate_text` over the cache object: the cache is asked before the gate, a reply is stored
      only when it is a non-empty text, and the state left behind is the specified one. */
  method GenerateText(cache: ResponseCache.ResponseCache, q: Request, c: Circumstance, providers: Providers)
    returns (reply: Reply)
    modifies cache, cache.directory
    ensures (cache.Contents(), reply) == Generate(old(cache.Contents()), q, c, providers)
  {
    if c.cacheOn {
      var cached := cache.Lookup(CacheKey(q), c.asked, c.readable);
      if cached.Some? { return Ok(cached.value); }
    }
    if Gated(q.model) && !c.remote { return Err(RemoteDisabled); }
    var call := Route(q);
    if call.None? { return Err(UnknownModel); }
    var result := providers(call.value);
    if result.Err? { return Err(ProviderFailed(result.error)); }
    if result.value != "" && c.cacheOn {
      cache.Store(CacheKey(q), result.value, c.answered, c.w);
    }
    reply := Ok(result.value);
  }

  // ---- Runs ----

  /** A request, or anything else that happens to the cache and its directory. */
  datatype Act = Ask(q: Request, c: Circumstance) | Upkeep(e: Event)

  function AfterAct(s: State, act: Act, providers: Providers): State {
    match act
    case Ask(q, c) => Generate(s, q, c, providers).0
    case Upkeep(e) => Step(s, e)
  }

  function RunActs(s: State, acts: seq<Act>, providers: Providers): State {
    if acts == [] then s else AfterAct(RunActs(s, acts[..|acts| - 1], providers), acts[|acts| - 1], providers)
  }

  /** A request together with the setting of the remote gate under which it is made. */
  datatype Question = Question(request: Request, remote: bool)

  function ReplyTo(u: Question, providers: Providers): Reply {
    Uncached(u.request, u.remote, providers)
  }

  /** The acts ask questions from `asked` only, and nothing but requests stores responses. */
  ghost predicate Over(acts: seq<Act>, asked: iset<Question>) {
    forall a | a in acts :: if a.Ask? then Question(a.q, a.c.remote) in asked else !a.e.op.SetOp?
  }

  /** After the run, the request is answered as it would be without a cache. */
  ghost predicate Unnoticed(enabled: bool, ttl: int, acts: seq<Act>, q: Request, c: Circumstance,
                            providers: Providers)
  {
    Generate(RunActs(Start(enabled, ttl), acts, providers), q, c, providers).1 == Uncached(q, c.remote, providers)
  }

  /** Over all runs of such questions, in all circumstances. */
  ghost predicate NeverNoticed(asked: iset<Question>, providers: Providers) {
    forall enabled, ttl, acts, q, c: Circumstance | Over(acts, asked) && Question(q, c.remote) in asked ::
      Unnoticed(enabled, ttl, acts, q, c, providers)
  }

  /** Every question with the key of a stored reply has that very reply. */
  ghost predicate Compatible(asked: iset<Question>, providers: Providers) {
    forall u, v | u in asked && v in asked && CacheKey(u.request) == CacheKey(v.request)
                  && Storable(ReplyTo(u, providers)) ::
      ReplyTo(v, providers) == ReplyTo(u, providers)
  }

  /** The carried invariant: a whole entry file holds the uncached reply to some question of its key. */
  ghost predicate Truthful(files: map<Key, File>, asked: iset<Question>, providers: Providers) {
    forall k | k in files && files[k].Whole? :: Justified(k, files[k].entry.response, asked, providers)
  }

  ghost predicate Justified(k: Key, response: string, asked: iset<Question>, providers: Providers) {
    exists u | u in asked :: CacheKey(u.request) == k && response != "" && ReplyTo(u, providers) == Ok(response)
  }

  /** A call puts nothing new into an entry file but its own reply, a non-empty text. */
  lemma {:induction false} CallWrites(s: State, q: Request, c: Circumstance, providers: Providers, k: Key)
    ensures var files := Generate(s, q, c, providers).0.files;
            k in files && files[k].Whole? ==>
              || (k in s.files && files[k] == s.files[k])
              || (k == CacheKey(q) && files[k].entry.response != ""
                  && Uncached(q, c.remote, providers) == Ok(files[k].entry.response))
  {
  }

  lemma {:induction false} AskKeepsTruth(s: State, q: Request, c: Circumstance, asked: iset<Question>,
                                         providers: Providers)
    requires Question(q, c.remote) in asked && Truthful(s.files, asked, providers)
    ensures Truthful(Generate(s, q, c, providers).0.files, asked, providers)
  {
    var u := Question(q, c.remote);
    var files := Generate(s, q, c, providers).0.files;
    forall k | k in files && files[k].Whole? ensures Justified(k, files[k].entry.response, asked, providers) {
      CallWrites(s, q, c, providers, k);
      assert ReplyTo(u, providers) == Uncached(q, c.remote, providers);
    }
  }

  lemma {:induction false} RunIsTruthful(enabled: bool, ttl: int, acts: seq<Act>, asked: iset<Question>,
                                         providers: Providers)
    requires Over(acts, asked)
    ensures Truthful(RunActs(Start(enabled, ttl), acts, providers).files, asked, providers)
  {
    if acts != [] {
      var init, last := acts[..|acts| - 1], acts[|acts| - 1];
      assert last in acts && forall a | a in init :: a in acts;
      RunIsTruthful(enabled, ttl, init, asked, providers);
      var s := RunActs(Start(enabled, ttl), init, providers);
      match last
      case Ask(q, c) => AskKeepsTruth(s, q, c, asked, providers);
      case Upkeep(e) =>
        forall k | k in Step(s, e).files ensures k in s.files && Step(s, e).files[k] == s.files[k] {
          OnlySetWrites(s, e, k);
        }
    }
  }

  /** A hit after a run of such questions is the reply to one of them. */
  lemma {:induction false} HitIsReply(enabled: bool, ttl: int, acts: seq<Act>, q: Request, c: Circumstance,
                                      asked: iset<Question>, providers: Providers) returns (u: Question)
    requires Over(acts, asked) && c.cacheOn
    requires Get(RunActs(Start(enabled, ttl), acts, providers), CacheKey(q), c.asked, c.readable).1.Some?
    ensures u in asked && CacheKey(u.request) == CacheKey(q) && Storable(ReplyTo(u, providers))
    ensures Generate(RunActs(Start(enabled, ttl), acts, providers), q, c, providers).1 == ReplyTo(u, providers)
  {
    RunIsTruthful(enabled, ttl, acts, asked, providers);
    var s := RunActs(Start(enabled, ttl), acts, providers);
    var k, response := CacheKey(q), s.files[CacheKey(q)].entry.response;
    assert Justified(k, response, asked, providers);
    u :| u in asked && CacheKey(u.request) == k && response != "" && ReplyTo(u, providers) == Ok(response);
  }

  /** Over compatible questions the cache is never noticed: not after failing writes, restarts, clock
      changes or maintenance, and not with the environment switching caching or remotes on and off. */
  lemma {:induction false} CompatibleIsUnnoticed(enabled: bool, ttl: int, acts: seq<Act>, q: Request, c: Circumstance,
                                                 asked: iset<Question>, providers: Providers)
    requires Compatible(asked, providers) && Over(acts, asked) && Question(q, c.remote) in asked
    ensures Unnoticed(enabled, ttl, acts, q, c, providers)
  {
    var s := RunActs(Start(enabled, ttl), acts, providers);
    if c.cacheOn && Get(s, CacheKey(q), c.asked, c.readable).1.Some? {
      var u := HitIsReply(enabled, ttl, acts, q, c, asked, providers);
      assert ReplyTo(Question(q, c.remote), providers) == ReplyTo(u, providers);
    }
  }

  /** A call with caching on and no failure. */
  function Smooth(remote: bool): Circumstance {
    Circumstance(true, remote, 0, 0, true, Written)
  }

  function AskFor(u: Question): Act {
    Ask(u.request, Smooth(u.remote))
  }

  /** A storable reply is what the next question with its key gets, whoever asks. */
  lemma {:induction false} ReplyIsShared(u: Question, v: Question, ttl: nat, providers: Providers)
    requires CacheKey(u.request) == CacheKey(v.request) && Storable(ReplyTo(u, providers))
    ensures Generate(RunActs(Start(true, ttl), [AskFor(u)], providers), v.request, Smooth(v.remote), providers).1
            == ReplyTo(u, providers)
  {
    var acts := [AskFor(u)];
    var s := Start(true, ttl);
    assert acts[..0] == [];
    assert RunActs(s, [], providers) == s;
    assert RunActs(s, acts, providers) == Generate(s, u.request, Smooth(u.remote), providers).0;
    assert Get(s, CacheKey(u.request), 0, true) == (Miss(s), None);
  }

  /** Two questions that share a key but not their replies: the second gets the first one's reply. */
  lemma {:induction false} CollisionIsNoticed(u: Question, v: Question, ttl: nat, providers: Providers)
    requires CacheKey(u.request) == CacheKey(v.request) && Storable(ReplyTo(u, providers))
    requires ReplyTo(v, providers) != ReplyTo(u, providers)
    ensures !Unnoticed(true, ttl, [AskFor(u)], v.request, Smooth(v.remote), providers)
  {
    ReplyIsShared(u, v, ttl, providers);
  }

  /** For given providers caching cannot be noticed, over all runs and all circumstances, if and only if
      no two of the questions share a key without sharing the reply. */
  lemma {:induction false} UnnoticedIffCompatible(asked: iset<Question>, providers: Providers)
    ensures Compatible(asked, providers) <==> NeverNoticed(asked, providers)
  {
    if Compatible(asked, providers) {
      forall enabled, ttl, acts, q, c: Circumstance | Over(acts, asked) && Question(q, c.remote) in asked
        ensures Unnoticed(enabled, ttl, acts, q, c, providers)
      {
        CompatibleIsUnnoticed(enabled, ttl, acts, q, c, asked, providers);
      }
    } else {
      var u, v :| u in asked && v in asked && CacheKey(u.request) == CacheKey(v.request)
                  && Storable(ReplyTo(u, providers)) && ReplyTo(v, providers) != ReplyTo(u, providers);
      CollisionIsNoticed(u, v, 0, providers);
      assert Over([AskFor(u)], asked);
      assert Question(v.request, Smooth(v.remote).remote) == v;
    }
  }

  // ---- What can be checked before any call ----

  /** The providers treat a missing and an empty system text alike. */
  ghost predicate SystemOptional(providers: Providers) {
    forall call: Call | call.system.None? :: providers(call) == providers(call.(system := Some("")))
  }

  function Plain(call: Call): Call {
    call.(system := Some(OrEmpty(call.system)))
  }

  /** What becomes of a question before any provider is called. */
  datatype Fate = Refused | Unroutable | Routed(call: Call)

  function FateOf(u: Question): Fate {
    if Gated(u.request.model) && !u.remote then Refused
    else match Route(u.request)
      case None => Unroutable
      case Some(call) => Routed(Plain(call))
  }

  /** No question shares its key with one that reaches a provider, unless it makes the same call. */
  ghost predicate KeyedApart(asked: iset<Question>) {
    forall u, v | u in asked && v in asked && CacheKey(u.request) == CacheKey(v.request) && FateOf(u).Routed? ::
      FateOf(v) == FateOf(u)
  }

  lemma {:induction false} FateDecides(u: Question, providers: Providers)
    requires SystemOptional(providers)
    ensures ReplyTo(u, providers)
            == match FateOf(u)
               case Refused => Err(RemoteDisabled)
               case Unroutable => Err(UnknownModel)
               case Routed(call) =>
                 match providers(call) case Ok(text) => Ok(text) case Err(message) => Err(ProviderFailed(message))
  {
    if Route(u.request).Some? {
      var call := Route(u.request).value;
      assert providers(call) == providers(Plain(call));
    }
  }

  /** Providers that answer one call, under either system text, with one text and all others with another. */
  function TwoValued(known: Call): Providers {
    (call: Call) => if Plain(call) == known then Ok("yes") else Ok("no")
  }

  lemma {:induction false} CompatibleIffKeyedApart(asked: iset<Question>)
    ensures (forall providers: Providers | SystemOptional(providers) :: Compatible(asked, providers))
            <==> KeyedApart(asked)
  {
    if KeyedApart(asked) {
      forall providers: Providers | SystemOptional(providers) ensures Compatible(asked, providers) {
        KeyedApartIsCompatible(asked, providers);
      }
    } else {
      var u, v :| u in asked && v in asked && CacheKey(u.request) == CacheKey(v.request) && FateOf(u).Routed?
                  && FateOf(v) != FateOf(u);
      var providers := TwoValued(FateOf(u).call);
      assert SystemOptional(providers);
      FateDecides(u, providers);
      FateDecides(v, providers);
      assert ReplyTo(u, providers) == Ok("yes") && ReplyTo(v, providers) != Ok("yes");
      assert !Compatible(asked, providers);
    }
  }

  lemma {:induction false} KeyedApartIsCompatible(asked: iset<Question>, providers: Providers)
    requires KeyedApart(asked) && SystemOptional(providers)
    ensures Compatible(asked, providers)
  {
    forall u, v | u in asked && v in asked && CacheKey(u.request) == CacheKey(v.request)
                  && Storable(ReplyTo(u, providers))
      ensures ReplyTo(v, providers) == ReplyTo(u, providers)
    {
      FateDecides(u, providers);
      FateDecides(v, providers);
      assert FateOf(u).Routed?;
    }
  }

  /** Exactly when caching cannot be noticed whatever the providers answer, in terms of the questions
      alone: names, prompts, settings and the gate. */
  lemma {:induction false} UnnoticedIffKeyedApart(asked: iset<Question>)
    ensures (forall providers: Providers | SystemOptional(providers) :: NeverNoticed(asked, providers))
            <==> KeyedApart(asked)
  {
    forall providers: Providers ensures NeverNoticed(asked, providers) <==> Compatible(asked, providers) {
      UnnoticedIffCompatible(asked, providers);
    }
    CompatibleIffKeyedApart(asked);
  }

  // ---- Well-formed requests ----

  predicate WellFormedRequest(q: Request) {
    WellFormed(Keyed(q.model, OrEmpty(q.system), q.prompt, q.temperature, q.maxTokens))
  }

  /** The dispatch looks at everything but the system text, which it hands on. */
  lemma {:induction false} RouteHandsOnSystem(q: Request, system: Option<string>)
    ensures var route := Route(q.(system := system));
            && route.Some? == Route(q).Some?
            && (route.Some? ==> route.value == Route(q).value.(system := system) && Route(q).value.system == q.system)
  {
    var r := q.(system := system);
    var a := if Route(q).Some? then Route(q).value.adapter else Local;
    RouteMeans(q, a);
    RouteMeans(r, a);
  }

  /** Well-formed requests with one key meet one fate under one setting of the gate. */
  lemma {:induction false} SameKeySameFate(q: Request, r: Request, remote: bool)
    requires WellFormedRequest(q) && WellFormedRequest(r) && CacheKey(q) == CacheKey(r)
    ensures q.model == r.model && FateOf(Question(q, remote)) == FateOf(Question(r, remote))
  {
    KeyTextInjective(Keyed(q.model, OrEmpty(q.system), q.prompt, q.temperature, q.maxTokens),
                     Keyed(r.model, OrEmpty(r.system), r.prompt, r.temperature, r.maxTokens));
    assert r == q.(system := r.system);
    RouteHandsOnSystem(q, r.system);
  }

  /** Well-formed requests with one key have one reply. */
  lemma {:induction false} SameKeySameReply(q: Request, r: Request, remote: bool, providers: Providers)
    requires WellFormedRequest(q) && WellFormedRequest(r) && CacheKey(q) == CacheKey(r) && SystemOptional(providers)
    ensures Uncached(q, remote, providers) == Uncached(r, remote, providers)
  {
    SameKeySameFate(q, r, remote);
    FateDecides(Question(q, remote), providers);
    FateDecides(Question(r, remote), providers);
  }

  /** A question in which the gate, if it matters, is set to `remote`. */
  predicate GateAt(q: Request, setting: bool, remote: bool) {
    Gated(q.model) ==> setting == remote
  }

  /** For well-formed requests, any prompts whatever, caching is never noticed, as long as the gate has
      one setting for the requests that it concerns. */
  lemma {:induction false} WellFormedIsUnnoticed(enabled: bool, ttl: int, acts: seq<Act>, q: Request, c: Circumstance,
                                                 remote: bool, providers: Providers)
    requires SystemOptional(providers) && WellFormedRequest(q) && GateAt(q, c.remote, remote)
    requires forall a | a in acts ::
               if a.Ask? then WellFormedRequest(a.q) && GateAt(a.q, a.c.remote, remote) else !a.e.op.SetOp?
    ensures Unnoticed(enabled, ttl, acts, q, c, providers)
  {
    var asked := iset u: Question | WellFormedRequest(u.request) && GateAt(u.request, u.remote, remote);
    forall u, v | u in asked && v in asked && CacheKey(u.request) == CacheKey(v.request)
      ensures FateOf(v) == FateOf(u)
    {
      SameKeySameFate(u.request, v.request, u.remote);
      assert FateOf(v) == FateOf(Question(v.request, u.remote));
    }
    KeyedApartIsCompatible(asked, providers);
    CompatibleIsUnnoticed(enabled, ttl, acts, q, c, asked, providers);
  }

  // ---- The cache and the gate ----

  /** The request is given a text after the run. */
  ghost predicate Answered(enabled: bool, ttl: int, acts: seq<Act>, q: Request, c: Circumstance, providers: Providers) {
    Generate(RunActs(Start(enabled, ttl), acts, providers), q, c, providers).1.Ok?
  }

  /** The cache is asked before the gate. So a request that the gate refuses is answered all the same in
      some run, in some circumstance, exactly when some question with its key has a reply to store: one
      asked while remote providers were on, say. */
  lemma {:induction false} RefusedYetAnswered(asked: iset<Question>, q: Request, providers: Providers)
    requires Gated(q.model)
    ensures (exists enabled, ttl, acts, c: Circumstance | Over(acts, asked) && !c.remote ::
               Answered(enabled, ttl, acts, q, c, providers))
            <==> exists u | u in asked :: CacheKey(u.request) == CacheKey(q) && Storable(ReplyTo(u, providers))
  {
    if enabled, ttl, acts, c: Circumstance
      :| Over(acts, asked) && !c.remote && Answered(enabled, ttl, acts, q, c, providers)
    {
      var u := HitIsReply(enabled, ttl, acts, q, c, asked, providers);
    }
    if u :| u in asked && CacheKey(u.request) == CacheKey(q) && Storable(ReplyTo(u, providers)) {
      ReplyIsShared(u, Question(q, false), 0, providers);
      assert Over([AskFor(u)], asked);
      assert Answered(true, 0, [AskFor(u)], q, Smooth(false), providers);
    }
  }

  /** The request is given a text in some run of such questions, though remotes are off for it. */
  ghost predicate AnsweredSomewhere(asked: iset<Question>, q: Request, providers: Providers) {
    exists enabled, ttl, acts, c: Circumstance | Over(acts, asked) && !c.remote ::
      Answered(enabled, ttl, acts, q, c, providers)
  }

  lemma {:induction false} AnsweredIsRouted(asked: iset<Question>, q: Request,
                                            providers: Providers) returns (u: Question)
    requires Gated(q.model) && SystemOptional(providers) && AnsweredSomewhere(asked, q, providers)
    ensures u in asked && CacheKey(u.request) == CacheKey(q) && FateOf(u).Routed?
  {
    RefusedYetAnswered(asked, q, providers);
    u :| u in asked && CacheKey(u.request) == CacheKey(q) && Storable(ReplyTo(u, providers));
    FateDecides(u, providers);
  }

  lemma {:induction false} RoutedIsAnswered(asked: iset<Question>, q: Request, u: Question)
    requires Gated(q.model) && u in asked && CacheKey(u.request) == CacheKey(q) && FateOf(u).Routed?
    ensures SystemOptional(TwoValued(FateOf(u).call)) && AnsweredSomewhere(asked, q, TwoValued(FateOf(u).call))
  {
    var providers := TwoValued(FateOf(u).call);
    FateDecides(u, providers);
    assert Storable(ReplyTo(u, providers));
    RefusedYetAnswered(asked, q, providers);
  }

  /** In terms of the questions alone: some providers make it happen if and only if some question with the
      key of the refused request is routed to a provider. */
  lemma {:induction false} RefusedYetAnsweredIffRouted(asked: iset<Question>, q: Request)
    requires Gated(q.model)
    ensures (exists providers: Providers | SystemOptional(providers) :: AnsweredSomewhere(asked, q, providers))
            <==> exists u | u in asked :: CacheKey(u.request) == CacheKey(q) && FateOf(u).Routed?
  {
    if providers: Providers :| SystemOptional(providers) && AnsweredSomewhere(asked, q, providers) {
      var u := AnsweredIsRouted(asked, q, providers);
    }
    if u :| u in asked && CacheKey(u.request) == CacheKey(q) && FateOf(u).Routed? {
      RoutedIsAnswered(asked, q, u);
    }
  }

  // ---- When the providers are called ----

  /** The cache operations that an act performs. */
  function EventsOf(s: State, act: Act, providers: Providers): seq<Event> {
    match act
    case Upkeep(e) => [e]
    case Ask(q, c) =>
      if !c.cacheOn then []
      else
        var reply := Uncached(q, c.remote, providers);
        var get := Event(c.asked, GetOp(CacheKey(q), c.readable));
        if Get(s, CacheKey(q), c.asked, c.readable).1.None? && Storable(reply) then
          [get, Event(c.answered, SetOp(CacheKey(q), reply.value, c.w))]
        else [get]
  }

  function Trace(s: State, acts: seq<Act>, providers: Providers): seq<Event> {
    if acts == [] then []
    else
      var init := acts[..|acts| - 1];
      Trace(s, init, providers) + EventsOf(RunActs(s, init, providers), acts[|acts| - 1], providers)
  }

  lemma {:induction false} RunConcat(s: State, a: seq<Event>, b: seq<Event>)
    ensures Run(s, a + b) == Run(Run(s, a), b)
  {
    if b == [] {
      assert a + b == a;
    } else {
      assert (a + b)[..|a + b| - 1] == a + b[..|b| - 1];
      RunConcat(s, a, b[..|b| - 1]);
    }
  }

  lemma {:induction false} RunTwo(s: State, d: Event, e: Event)
    ensures Run(s, [d]) == Step(s, d) && Run(s, [d, e]) == Step(Step(s, d), e)
  {
    assert [d][..0] == [] && [d, e][..1] == [d];
    assert Run(s, []) == s;
  }

  lemma {:induction false} ActIsItsEvents(s: State, act: Act, providers: Providers)
    ensures AfterAct(s, act, providers) == Run(s, EventsOf(s, act, providers))
  {
    match act
    case Upkeep(e) => RunTwo(s, e, e);
    case Ask(q, c) =>
      if c.cacheOn {
        var get := Event(c.asked, GetOp(CacheKey(q), c.readable));
        var reply := Uncached(q, c.remote, providers);
        if Storable(reply) {
          RunTwo(s, get, Event(c.answered, SetOp(CacheKey(q), reply.value, c.w)));
        } else {
          RunTwo(s, get, get);
        }
      }
  }

  /** A run of requests is a run of the cache, so what holds of every run of the cache holds here. */
  lemma {:induction false} RequestsAreCacheRuns(s: State, acts: seq<Act>, providers: Providers)
    ensures RunActs(s, acts, providers) == Run(s, Trace(s, acts, providers))
  {
    if acts != [] {
      var init, last := acts[..|acts| - 1], acts[|acts| - 1];
      RequestsAreCacheRuns(s, init, providers);
      var before := RunActs(s, init, providers);
      ActIsItsEvents(before, last, providers);
      RunConcat(s, Trace(s, init, providers), EventsOf(before, last, providers));
    }
  }

  /** Whether answering the request calls a provider. */
  predicate Consults(s: State, q: Request, c: Circumstance) {
    && (c.cacheOn ==> Get(s, CacheKey(q), c.asked, c.readable).1.None?)
    && (!Gated(q.model) || c.remote)
    && Route(q).Some?
  }

  /** A provider is called exactly when the reply can depend on what providers answer. */
  lemma {:induction false} ConsultsMeans(s: State, q: Request, c: Circumstance)
    ensures Consults(s, q, c)
            <==> exists p: Providers, p': Providers :: Generate(s, q, c, p).1 != Generate(s, q, c, p').1
  {
    if Consults(s, q, c) {
      var yes: Providers, no: Providers := _ => Ok("yes"), _ => Ok("no");
      assert Generate(s, q, c, yes).1 == Ok("yes") && Generate(s, q, c, no).1 == Ok("no");
    }
  }

  /** Without restarts and half-way writes, a request that is not refused and has a provider to go to is
      sent to it exactly when the last response stored under its key is too old, was dropped, or never was. */
  lemma {:induction false} ConsultsWhenStale(ttl: int, acts: seq<Act>, q: Request, c: Circumstance,
                                             providers: Providers)
    requires var es := Trace(Start(true, ttl), acts, providers);
             Ordered(es, c.asked) && forall e | e in es :: Clean(e)
    requires c.cacheOn && c.readable
    ensures var s, es := Start(true, ttl), Trace(Start(true, ttl), acts, providers);
            Consults(RunActs(s, acts, providers), q, c)
            <==> TimedMap(LastSet(es, CacheKey(q)), ttl, c.asked).None? && (!Gated(q.model) || c.remote)
                 && Route(q).Some?
  {
    var s := Start(true, ttl);
    RequestsAreCacheRuns(s, acts, providers);
    assert s == s.(files := map[]);
    RefinesTimedMap(ttl, map[], Trace(s, acts, providers), CacheKey(q), c.asked);
  }
}
