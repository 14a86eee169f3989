/**
 * The server's configuration logic: the environment flags that choose
 * between the production and the open-source Gemini client (memoized on
 * first use), the API-key validation cache, and the health and translate
 * endpoints that read it. The Gemini probe call is a parameter.
 */
module ServerConfig {
  import opened Wrappers
  import opened Strings
  import PageStore

  /** The environment variables the server reads; None when unset. */
  datatype Env = Env(useProdGemini: Option<string>, nodeEnv: Option<string>, geminiApiKey: Option<string>)

  // ----- client selection -----

  /** The two client implementations. */
  datatype ClientKind = Prod | Oss

  /** `useProdVersion`: the flag says "true", or the environment is development and the flag does not say "false". */
  predicate UseProd(env: Env) {
    env.useProdGemini == Some("true") || (env.nodeEnv == Some("development") && env.useProdGemini != Some("false"))
  }

  /** The client the flags select. */
  function Choose(env: Env): (k: ClientKind)
    ensures k == Prod <==> UseProd(env)
  {
    if UseProd(env) then Prod else Oss
  }

  /** "false" forces the open-source client even in development. */
  lemma FalseForcesOss(env: Env)
    requires env.useProdGemini == Some("false")
    ensures Choose(env) == Oss
  {
  }

  /** Without the flag, only development selects the production client. */
  lemma UnsetFlagFollowsNodeEnv(env: Env)
    requires env.useProdGemini.None?
    ensures Choose(env) == Prod <==> env.nodeEnv == Some("development")
  {
  }

  /** The memo of `getGeminiClientClass`: unset until the first construction. */
  datatype Memo = Memo(choice: Option<ClientKind>)

  /** `getGeminiClientClass`: the first call decides from the environment, every later call reuses that decision. */
  function ClientClass(m: Memo, env: Env): (r: (Memo, ClientKind))
    ensures m.choice.Some? ==> r == (m, m.choice.value)
    ensures m.choice.None? ==> r == (Memo(Some(Choose(env))), Choose(env))
  {
    match m.choice
    case Some(k) => (m, k)
    case None => (Memo(Some(Choose(env))), Choose(env))
  }

  /** The kinds of the clients constructed under successive environments. */
  function Constructions(m: Memo, envs: seq<Env>): (ks: seq<ClientKind>)
    ensures |ks| == |envs|
    decreases |envs|
  {
    if |envs| == 0 then []
    else
      var r := ClientClass(m, envs[0]);
      [r.1] + Constructions(r.0, envs[1..])
  }

  /** Every client is of the kind the first construction chose, whatever the environment does later. */
  lemma {:induction false} ConstructionsAgree(m: Memo, envs: seq<Env>)
    requires |envs| > 0
    ensures var ks := Constructions(m, envs);
      var first := if m.choice.Some? then m.choice.value else Choose(envs[0]);
      forall i :: 0 <= i < |ks| ==> ks[i] == first
    decreases |envs|
  {
    var r := ClientClass(m, envs[0]);
    var ks := Constructions(m, envs);
    assert ks == [r.1] + Constructions(r.0, envs[1..]);
    if |envs| > 1 {
      ConstructionsAgree(r.0, envs[1..]);
      assert r.0.choice == Some(r.1);
    }
  }

  /**
   * A proxy method (`extractTextFromImage`, `translateTexts`,
   * `renderTranslatedImage`): the chosen implementation's answer for the
   * same arguments, unchanged.
   */
  function Forward<A, R>(k: ClientKind, args: A, prod: A -> R, oss: A -> R): (r: R)
    ensures k == Prod ==> r == prod(args)
    ensures k == Oss ==> r == oss(args)
  {
    match k
    case Prod => prod(args)
    case Oss => oss(args)
  }

  /** Every proxy call under one memo reaches the same implementation, whatever the environment at each construction. */
  lemma ForwardAgrees<A, R>(m: Memo, envs: seq<Env>, args: A, prod: A -> R, oss: A -> R, i: nat, j: nat)
    requires i < |envs| && j < |envs|
    ensures var ks := Constructions(m, envs);
      Forward(ks[i], args, prod, oss) == Forward(ks[j], args, prod, oss)
  {
    ConstructionsAgree(m, envs);
  }

  /** The model the key probe uses, chosen by the same flags as the client. */
  function ProbeModel(env: Env): (name: string)
    ensures name == "gemini-2.5-pro" <==> Choose(env) == Prod
    ensures name == "gemini-1.5-flash" <==> Choose(env) == Oss
  {
    if UseProd(env) then "gemini-2.5-pro" else "gemini-1.5-flash"
  }

  // ----- key validation cache -----

  /** The cache window in milliseconds. */
  const CacheMillis: int := 60000

  /** The key with the cached verdict (None: not tested) and the time it was stamped. */
  datatype KeyState = KeyState(key: Option<string>, valid: Option<bool>, lastValidation: int)

  /** A key JavaScript treats as present: defined and non-empty. */
  predicate HasKey(s: KeyState) {
    s.key.Some? && s.key.value != ""
  }

  /** `updateApiKey`: the new key with the cache cleared. */
  function UpdateApiKey(s: KeyState, newKey: string): (r: KeyState)
    ensures r.key == Some(newKey) && r.valid.None? && r.lastValidation == 0
  {
    KeyState(Some(newKey), None, 0)
  }

  /** The answer of the probe call: success, or an error with its optional message and status. */
  datatype Probe = ProbeOk | ProbeError(message: Option<string>, status: Option<int>)

  /** A failure the server treats as a verdict on the key. */
  predicate AuthFailure(p: Probe) {
    p.ProbeError? &&
    ((p.message.Some? && (Contains(p.message.value, "API key") || Contains(p.message.value, "API_KEY_INVALID")))
     || p.status == Some(400) || p.status == Some(401) || p.status == Some(403))
  }

  /** The state after a validation, its answer, and whether the probe was called. */
  datatype Validation = Validation(state: KeyState, valid: bool, probed: bool)

  /**
   * `validateApiKey` at time `now`, with `probe` the result of the test
   * call. No key: false, no call. A verdict younger than the window: the
   * verdict, no call. Otherwise the call: success caches true, an auth
   * failure caches false, both stamped `now`; any other failure answers
   * false and leaves the cache alone.
   */
  function ValidateApiKey(s: KeyState, now: int, probe: Probe): (v: Validation)
    ensures !HasKey(s) ==> v == Validation(s, false, false)
    ensures HasKey(s) && s.valid.Some? && now - s.lastValidation < CacheMillis ==> v == Validation(s, s.valid.value, false)
    ensures v.probed <==> HasKey(s) && !(s.valid.Some? && now - s.lastValidation < CacheMillis)
    ensures v.probed && probe.ProbeOk? ==> v == Validation(s.(valid := Some(true), lastValidation := now), true, true)
    ensures v.probed && AuthFailure(probe) ==> v == Validation(s.(valid := Some(false), lastValidation := now), false, true)
    ensures v.probed && probe.ProbeError? && !AuthFailure(probe) ==> v == Validation(s, false, true)
    ensures v.state.key == s.key
  {
    if !HasKey(s) then Validation(s, false, false)
    else if s.valid.Some? && now - s.lastValidation < CacheMillis then Validation(s, s.valid.value, false)
    else if probe.ProbeOk? then Validation(s.(valid := Some(true), lastValidation := now), true, true)
    else if AuthFailure(probe) then Validation(s.(valid := Some(false), lastValidation := now), false, true)
    else Validation(s, false, true)
  }

  /** The answer agrees with the cache whenever the cache holds a verdict afterwards that was set by this call or is fresh. */
  lemma ValidationCachesItsVerdict(s: KeyState, now: int, probe: Probe)
    requires HasKey(s)
    ensures var v := ValidateApiKey(s, now, probe);
      v.state.valid.Some? && v.state.lastValidation == now ==> v.state.valid.value == v.valid
  {
  }

  /** A second validation inside the window makes no call and repeats the first verdict. */
  lemma SecondValidationUsesCache(s: KeyState, now: int, later: int, probe: Probe, probe2: Probe)
    requires HasKey(s)
    requires now <= later < now + CacheMillis
    ensures var v := ValidateApiKey(s, now, probe);
      v.state.valid.Some? && v.state.lastValidation == now ==>
        var w := ValidateApiKey(v.state, later, probe2);
        !w.probed && w.valid == v.valid && w.state == v.state
  {
  }

  /** A network failure is retried on the next validation: nothing was cached. */
  lemma NetworkFailureRetried(s: KeyState, now: int, later: int, probe2: Probe)
    requires HasKey(s) && s.valid.None?
    ensures var v := ValidateApiKey(s, now, ProbeError(Some("fetch failed"), None));
      v.probed && !v.valid && ValidateApiKey(v.state, later, probe2).probed
  {
    var p := ProbeError(Some("fetch failed"), None);
    assert !Contains("fetch failed", "API key") by {
      forall i | 0 <= i <= |"fetch failed"| - |"API key"|
        ensures !StartsWith("fetch failed"[i..], "API key")
      {
        assert "fetch failed"[i] != 'A';
      }
    }
    assert !Contains("fetch failed", "API_KEY_INVALID") by {
      if Contains("fetch failed", "API_KEY_INVALID") { ContainsLength("fetch failed", "API_KEY_INVALID"); }
    }
  }

  // ----- health -----

  /** The health reply's two flags. */
  datatype Health = Health(apiKeyConfigured: bool, apiKeyValid: bool)

  /** The state after a health request, the reply, and whether a background validation was started. */
  datatype HealthStep = HealthStep(state: KeyState, reply: Health, startsValidation: bool)

  /**
   * `GET /api/health`: a key differing from the environment's is replaced
   * (an unset variable becomes the empty key) and the cache cleared; the
   * reply counts an untested key as valid. The background validation is
   * only reported, not run.
   */
  function HealthCheck(s: KeyState, envKey: Option<string>): (h: HealthStep)
    ensures envKey != s.key ==> h.state == UpdateApiKey(s, envKey.GetOr(""))
    ensures envKey == s.key ==> h.state == s
    ensures h.reply.apiKeyConfigured <==> HasKey(h.state)
    ensures h.reply.apiKeyValid <==> HasKey(h.state) && h.state.valid != Some(false)
    ensures h.startsValidation <==> HasKey(h.state) && h.state.valid.None?
  {
    var t := if envKey != s.key then UpdateApiKey(s, envKey.GetOr("")) else s;
    HealthStep(t, Health(HasKey(t), HasKey(t) && t.valid != Some(false)), t.valid.None? && HasKey(t))
  }

  /** A valid reply implies a configured one, and a key changed in the environment always reads as valid at first. */
  lemma HealthValidImpliesConfigured(s: KeyState, envKey: Option<string>)
    ensures var h := HealthCheck(s, envKey);
      (h.reply.apiKeyValid ==> h.reply.apiKeyConfigured)
      && (envKey != s.key && envKey.Some? && envKey.value != "" ==> h.reply.apiKeyValid)
  {
  }

  // ----- translate endpoint and error handler -----

  /**
   * `POST /api/translate`: no key answers 503 before the request checks
   * the page routes share; translation failures answer 500. With a key the
   * client is constructed before the request is checked, so the class memo
   * is fixed even by a request answered 400; the client of that class
   * translates.
   */
  function TranslateEndpoint(s: KeyState, m: Memo, env: Env, texts: Option<seq<string>>, targetLanguage: Option<string>,
                             translate: (ClientKind, seq<string>, string) -> Result<seq<string>>)
    : (r: (Memo, PageStore.Reply<seq<string>>))
    ensures !HasKey(s) ==> r == (m, PageStore.Err(503, PageStore.NotConfigured))
    ensures HasKey(s) ==> r.0 == ClientClass(m, env).0 && r.0.choice.Some?
    ensures var kind := ClientClass(m, env).1;
      r.1 == PageStore.Translate(HasKey(s), texts, targetLanguage, (ts, lang) => translate(kind, ts, lang))
  {
    if !HasKey(s) then (m, PageStore.Err(503, PageStore.NotConfigured))
    else
      var (m', kind) := ClientClass(m, env);
      match PageStore.TranslateRequestError(texts, targetLanguage)
      case Some(e) => (m', e)
      case None =>
        match translate(kind, texts.value, targetLanguage.value)
        case Failure(_) => (m', PageStore.Err(500, PageStore.TranslateFailed))
        case Success(ts) => (m', PageStore.Ok(ts))
  }

  /**
   * A rejected translate request still fixes the client class: once one has
   * been answered 400 with a fresh memo, every later construction takes the
   * class the environment of that request chose.
   */
  lemma RejectedTranslateFixesClass(s: KeyState, m: Memo, env: Env, later: Env, targetLanguage: Option<string>,
                                    translate: (ClientKind, seq<string>, string) -> Result<seq<string>>)
    requires HasKey(s) && m.choice.None?
    ensures var r := TranslateEndpoint(s, m, env, None, targetLanguage, translate);
      r.1 == PageStore.Err(400, PageStore.InvalidTexts) && ClientClass(r.0, later).1 == Choose(env)
  {
  }

  /** The error handler: the error's status or 500, its message or "Internal server error". */
  function ErrorHandler(status: Option<nat>, message: Option<string>): (r: PageStore.Reply<bool>)
    ensures r.Err?
    ensures status.None? || status.value == 0 ==> r.status == 500
    ensures status.Some? && status.value != 0 ==> r.status == status.value
    ensures message.Some? && message.value != "" ==> r.error == message.value
    ensures message.None? || message.value == "" ==> r.error == "Internal server error"
  {
    PageStore.Err(if status.Some? && status.value != 0 then status.value else 500,
                  if message.Some? && message.value != "" then message.value else "Internal server error")
  }
}
