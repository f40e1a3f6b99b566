/** The server side: secrets resolved from the environment, the default client,
    and the webhook endpoint that verifies a Stripe event and runs the user's
    handler on it. */
module WebhookServer {
  import opened Wrappers
  import opened JsValue

  // ---------------------------------------------------------------------------
  // Secrets from the environment
  // ---------------------------------------------------------------------------

  /** `process.env`: a variable is either set to a string or absent. */
  type Env = map<string, string>

  const NuxtStripeSecret := "NUXT_STRIPE_SECRET"
  const StripeClientSecret := "STRIPE_CLIENT_SECRET"
  const StripeSecret := "STRIPE_SECRET"
  const NuxtStripeWebhookSecret := "NUXT_STRIPE_WEBHOOK_SECRET"
  const StripeWebhookSecret := "STRIPE_WEBHOOK_SECRET"

  /** `process.env[name]`, where an absent variable is as falsy as an empty one. */
  function EnvVar(env: Env, name: string): (r: string)
    ensures r != "" <==> name in env && env[name] != ""
  {
    if name in env then env[name] else ""
  }

  /** `a || b` on two strings. */
  function OrElse(a: string, b: string): string {
    if a != "" then a else b
  }

  /** `defaultStripeSecret`: the first of the three variables that is set and
      non-empty, or the empty string. */
  function DefaultStripeSecret(env: Env): (r: string)
    ensures EnvVar(env, NuxtStripeSecret) != "" ==> r == env[NuxtStripeSecret]
    ensures EnvVar(env, NuxtStripeSecret) == "" && EnvVar(env, StripeClientSecret) != ""
      ==> r == env[StripeClientSecret]
    ensures EnvVar(env, NuxtStripeSecret) == "" && EnvVar(env, StripeClientSecret) == ""
      ==> r == EnvVar(env, StripeSecret)
    ensures r == "" <==> (EnvVar(env, NuxtStripeSecret) == "" && EnvVar(env, StripeClientSecret) == ""
                          && EnvVar(env, StripeSecret) == "")
  {
    OrElse(OrElse(OrElse(EnvVar(env, NuxtStripeSecret), EnvVar(env, StripeClientSecret)),
      EnvVar(env, StripeSecret)), "")
  }

  /** `defaultStripeWebhookSecret`: the first of the two variables that is set
      and non-empty, or the empty string. */
  function DefaultStripeWebhookSecret(env: Env): (r: string)
    ensures EnvVar(env, NuxtStripeWebhookSecret) != "" ==> r == env[NuxtStripeWebhookSecret]
    ensures EnvVar(env, NuxtStripeWebhookSecret) == "" ==> r == EnvVar(env, StripeWebhookSecret)
    ensures r == "" <==> EnvVar(env, NuxtStripeWebhookSecret) == "" && EnvVar(env, StripeWebhookSecret) == ""
  {
    OrElse(OrElse(EnvVar(env, NuxtStripeWebhookSecret), EnvVar(env, StripeWebhookSecret)), "")
  }

  /** Whatever either default returns was read from the environment. */
  lemma DefaultsComeFromEnv(env: Env)
    ensures DefaultStripeSecret(env) == ""
      || exists name :: name in env && name in {NuxtStripeSecret, StripeClientSecret, StripeSecret}
                        && env[name] == DefaultStripeSecret(env)
    ensures DefaultStripeWebhookSecret(env) == ""
      || exists name :: name in env && name in {NuxtStripeWebhookSecret, StripeWebhookSecret}
                        && env[name] == DefaultStripeWebhookSecret(env)
  {
    var r := DefaultStripeSecret(env);
    if r != "" {
      if EnvVar(env, NuxtStripeSecret) != "" {
        assert env[NuxtStripeSecret] == r;
      } else if EnvVar(env, StripeClientSecret) != "" {
        assert env[StripeClientSecret] == r;
      } else {
        assert env[StripeSecret] == r;
      }
    }
    var w := DefaultStripeWebhookSecret(env);
    if w != "" {
      if EnvVar(env, NuxtStripeWebhookSecret) != "" {
        assert env[NuxtStripeWebhookSecret] == w;
      } else {
        assert env[StripeWebhookSecret] == w;
      }
    }
  }

  // ---------------------------------------------------------------------------
  // The default client
  // ---------------------------------------------------------------------------

  /** A thrown value: a string, `null`/`undefined`, or anything else, seen
      through what its `message` property reads as. */
  datatype Thrown = ThrownString(text: string) | ThrownNullish | ThrownOther(message: Prim)

  /** `CreateStripeOptions`; every field may be left out. */
  datatype CreateOptions<C> = CreateOptions(webhookSecret: Option<string>, stripe: Option<C>,
                                            apiKey: Option<string>, config: Option<Options>)

  /** What `createDefaultStripe` returns. */
  datatype Client<C> = Client(webhookSecret: string, stripe: C)

  const DefaultApiVersion := "2022-11-15"

  /** `options?.field || fallback` for an optional string field. */
  function FieldOr(field: Option<string>, fallback: string): (r: string)
    ensures field.Some? && field.value != "" ==> r == field.value
    ensures (field.None? || field.value == "") ==> r == fallback
  {
    if field.Some? then OrElse(field.value, fallback) else fallback
  }

  /** `{ apiVersion: '2022-11-15', ...options?.config }`. */
  function ClientConfig(config: Option<Options>): (r: Options)
    ensures ApiVersion in r
    ensures forall k :: k in r <==> k == ApiVersion || (config.Some? && k in config.value)
    ensures forall k :: config.Some? && k in config.value ==> r[k] == config.value[k]
    ensures (config.None? || ApiVersion !in config.value) ==> r[ApiVersion] == Atom(Str(DefaultApiVersion))
  {
    var defaults := map[ApiVersion := Atom(Str(DefaultApiVersion))];
    if config.Some? then defaults + config.value else defaults
  }

  const ApiVersion := "apiVersion"

  /** The webhook secret `createDefaultStripe` settles on: a non-empty one in
      the options beats the environment; an absent or empty one falls back to it. */
  function ResolvedWebhookSecret<C>(options: Option<CreateOptions<C>>, env: Env): (r: string)
    ensures options.Some? && options.value.webhookSecret.Some? && options.value.webhookSecret.value != ""
      ==> r == options.value.webhookSecret.value
    ensures (options.None? || options.value.webhookSecret.None? || options.value.webhookSecret.value == "")
      ==> r == DefaultStripeWebhookSecret(env)
  {
    FieldOr(if options.Some? then options.value.webhookSecret else None, DefaultStripeWebhookSecret(env))
  }

  /** The API key a new client is built with: a non-empty one in the options
      beats the environment; an absent or empty one falls back to it. */
  function ResolvedApiKey<C>(options: Option<CreateOptions<C>>, env: Env): (r: string)
    ensures options.Some? && options.value.apiKey.Some? && options.value.apiKey.value != ""
      ==> r == options.value.apiKey.value
    ensures (options.None? || options.value.apiKey.None? || options.value.apiKey.value == "")
      ==> r == DefaultStripeSecret(env)
  {
    FieldOr(if options.Some? then options.value.apiKey else None, DefaultStripeSecret(env))
  }

  /** `createDefaultStripe`: a client given in the options is kept as it is;
      otherwise one is built (`construct` stands for the SDK's constructor,
      which may throw). */
  function CreateDefaultStripe<C>(options: Option<CreateOptions<C>>, env: Env,
                                  construct: (string, Options) -> Result<C, Thrown>): (r: Result<Client<C>, Thrown>)
    ensures r.Ok? ==> r.value.webhookSecret == ResolvedWebhookSecret(options, env)
    ensures options.Some? && options.value.stripe.Some?
      ==> r == Ok(Client(ResolvedWebhookSecret(options, env), options.value.stripe.value))
    ensures (options.None? || options.value.stripe.None?) ==>
      var built := construct(ResolvedApiKey(options, env),
                             ClientConfig(if options.Some? then options.value.config else None));
      (r.Ok? <==> built.Ok?) && (r.Ok? ==> r.value.stripe == built.value) && (r.Err? ==> r.error == built.error)
  {
    var webhookSecret := ResolvedWebhookSecret(options, env);
    if options.Some? && options.value.stripe.Some? then
      Ok(Client(webhookSecret, options.value.stripe.value))
    else
      match construct(ResolvedApiKey(options, env), ClientConfig(if options.Some? then options.value.config else None))
      case Ok(stripe) => Ok(Client(webhookSecret, stripe))
      case Err(e) => Err(e)
  }

  /** A client given in the options ignores `apiKey`, `config` and the
      constructor: two option sets differing only there give the same result. */
  lemma GivenClientIgnoresKeyAndConfig<C>(secret: Option<string>, stripe: C, key1: Option<string>, key2: Option<string>,
                                         config1: Option<Options>, config2: Option<Options>, env: Env,
                                         construct1: (string, Options) -> Result<C, Thrown>,
                                         construct2: (string, Options) -> Result<C, Thrown>)
    ensures CreateDefaultStripe(Some(CreateOptions(secret, Some(stripe), key1, config1)), env, construct1)
         == CreateDefaultStripe(Some(CreateOptions(secret, Some(stripe), key2, config2)), env, construct2)
  {
  }

  // ---------------------------------------------------------------------------
  // Error messages
  // ---------------------------------------------------------------------------

  /** `getErrorMessage`: a thrown string is its own message, otherwise the
      `message` property when it is a string, and the empty string when not.
      Reading `message` off `null` or `undefined` throws, hence `None`. */
  function GetErrorMessage(e: Thrown): (r: Option<string>)
    ensures r.None? <==> e.ThrownNullish?
    ensures e.ThrownString? ==> r == Some(e.text)
    ensures e.ThrownOther? && e.message.Str? ==> r == Some(e.message.s)
    ensures e.ThrownOther? && !e.message.Str? ==> r == Some("")
  {
    match e
    case ThrownString(text) => Some(OrElse(text, ""))
    case ThrownNullish => None
    case ThrownOther(message) => if message.Str? then Some(OrElse(message.s, "")) else Some("")
  }

  // ---------------------------------------------------------------------------
  // The webhook endpoint
  // ---------------------------------------------------------------------------

  /** An incoming request: its method (as h3 reports it, upper case) and the
      parts signature verification reads. */
  datatype Request = Request(httpMethod: string, signature: Option<string>, body: Option<string>)

  /** The handler's result object. */
  datatype Outcome<D> = Success(data: D) | Failure(message: string)

  /** What the endpoint answers: a status with a result object, or nothing of
      its own when the error path itself throws. */
  datatype Response<D> = Response(status: nat, outcome: Outcome<D>) | Unhandled

  /** The request methods that carry a body. */
  predicate IsBodyMethod(httpMethod: string) {
    httpMethod in {"POST", "PUT", "PATCH", "DELETE"}
  }

  /** The closure state of `defineStripeWebhook`: the `stripe` and
      `webhookSecret` variables, unset until the first request that gets past
      client creation. */
  datatype EndpointState<C> = EndpointState(stripe: Option<C>, webhookSecret: Option<string>)

  predicate Consistent<C>(st: EndpointState<C>) {
    st.stripe.Some? <==> st.webhookSecret.Some?
  }

  /** The catch block. */
  function Rejection<D>(e: Thrown): (r: Response<D>)
    ensures r.Response? ==> r.status == 400 && r.outcome.Failure? && GetErrorMessage(e) == Some(r.outcome.message)
    ensures r.Unhandled? <==> e.ThrownNullish?
  {
    match GetErrorMessage(e)
    case Some(message) => Response(400, Failure(message))
    case None => Unhandled
  }

  /** The endpoint state once client creation has been attempted. */
  function Initialised<C>(st: EndpointState<C>, options: Option<CreateOptions<C>>, env: Env,
                          construct: (string, Options) -> Result<C, Thrown>): (r: Result<EndpointState<C>, Thrown>)
    requires Consistent(st)
    ensures r.Ok? ==> Consistent(r.value) && r.value.stripe.Some?
    ensures st.stripe.Some? ==> r == Ok(st)
    ensures st.stripe.None? && r.Ok? ==> var c := CreateDefaultStripe(options, env, construct);
      c.Ok? && r.value == EndpointState(Some(c.value.stripe), Some(c.value.webhookSecret))
  {
    if st.stripe.Some? then Ok(st)
    else match CreateDefaultStripe(options, env, construct)
      case Ok(c) => Ok(EndpointState(Some(c.stripe), Some(c.webhookSecret)))
      case Err(e) => Err(e)
  }

  /** One request: the method gate, lazy client creation, verification of
      the event, then the user's handler. */
  function Step<C, E, D>(st: EndpointState<C>, req: Request, env: Env, options: Option<CreateOptions<C>>,
                         construct: (string, Options) -> Result<C, Thrown>,
                         verify: (C, string, Request) -> Result<E, Thrown>,
                         handler: (Request, C, E) -> Result<D, Thrown>): (r: (EndpointState<C>, Response<D>))
    requires Consistent(st)
    ensures Consistent(r.0)
    ensures st.stripe.Some? ==> r.0 == st
    ensures r.1.Response? ==> (r.1.status == 200 <==> r.1.outcome.Success?)
    ensures r.1.Response? ==> r.1.status == 200 || r.1.status == 400
  {
    if !IsBodyMethod(req.httpMethod) then
      (st, Response(400, Failure("Unsupported Method: " + req.httpMethod)))
    else match Initialised(st, options, env, construct)
      case Err(e) => (st, Rejection(e))
      case Ok(ready) =>
        match verify(ready.stripe.value, ready.webhookSecret.value, req)
        case Err(e) => (ready, Rejection(e))
        case Ok(event) =>
          match handler(req, ready.stripe.value, event)
          case Err(e) => (ready, Rejection(e))
          case Ok(data) => (ready, Response(200, Success(data)))
  }

  /** A request without a body method is refused with 400 before anything
      else happens: no client is created and the handler does not run. */
  lemma UnsupportedMethodRejected<C, E, D>(st: EndpointState<C>, req: Request, env: Env,
                                           options: Option<CreateOptions<C>>,
                                           construct: (string, Options) -> Result<C, Thrown>,
                                           verify: (C, string, Request) -> Result<E, Thrown>,
                                           handler: (Request, C, E) -> Result<D, Thrown>)
    requires Consistent(st) && !IsBodyMethod(req.httpMethod)
    ensures Step(st, req, env, options, construct, verify, handler)
         == (st, Response(400, Failure("Unsupported Method: " + req.httpMethod)))
  {
  }

  /** A success carries exactly what the handler returned for the verified
      event, with the client the endpoint holds afterwards. */
  lemma SuccessCarriesHandlerResult<C, E, D>(st: EndpointState<C>, req: Request, env: Env,
                                             options: Option<CreateOptions<C>>,
                                             construct: (string, Options) -> Result<C, Thrown>,
                                             verify: (C, string, Request) -> Result<E, Thrown>,
                                             handler: (Request, C, E) -> Result<D, Thrown>)
    requires Consistent(st)
    ensures var (st', resp) := Step(st, req, env, options, construct, verify, handler);
      resp.Response? && resp.outcome.Success? ==>
        IsBodyMethod(req.httpMethod) && st'.stripe.Some?
        && var event := verify(st'.stripe.value, st'.webhookSecret.value, req);
           event.Ok? && handler(req, st'.stripe.value, event.value) == Ok(resp.outcome.data)
  {
  }

  /** Every failure past the method gate answers 400 with the message
      `getErrorMessage` extracts from what was thrown. */
  lemma FailureCarriesErrorMessage<C, E, D>(st: EndpointState<C>, req: Request, env: Env,
                                            options: Option<CreateOptions<C>>,
                                            construct: (string, Options) -> Result<C, Thrown>,
                                            verify: (C, string, Request) -> Result<E, Thrown>,
                                            handler: (Request, C, E) -> Result<D, Thrown>)
    requires Consistent(st) && IsBodyMethod(req.httpMethod)
    ensures var resp := Step(st, req, env, options, construct, verify, handler).1;
      resp.Response? && resp.outcome.Failure? ==>
        resp.status == 400 && exists e :: (GetErrorMessage(e) == Some(resp.outcome.message)
             && (Initialised(st, options, env, construct) == Err(e)
                 || (Initialised(st, options, env, construct).Ok?
                     && var ready := Initialised(st, options, env, construct).value;
                        (verify(ready.stripe.value, ready.webhookSecret.value, req) == Err(e)
                         || (verify(ready.stripe.value, ready.webhookSecret.value, req).Ok?
                             && handler(req, ready.stripe.value,
                                        verify(ready.stripe.value, ready.webhookSecret.value, req).value) == Err(e))))))
  {
  }

  /** The other direction: whatever client creation, verification or the
      handler throws is answered 400 with the message `getErrorMessage` gives
      (nothing of the endpoint's own when that read throws), and the state is
      the one reached before the throw. */
  lemma ThrowAnswered<C, E, D>(st: EndpointState<C>, req: Request, env: Env,
                               options: Option<CreateOptions<C>>,
                               construct: (string, Options) -> Result<C, Thrown>,
                               verify: (C, string, Request) -> Result<E, Thrown>,
                               handler: (Request, C, E) -> Result<D, Thrown>, e: Thrown)
    requires Consistent(st) && IsBodyMethod(req.httpMethod)
    ensures Initialised(st, options, env, construct) == Err(e)
      ==> Step(st, req, env, options, construct, verify, handler) == (st, Rejection(e))
    ensures var init := Initialised(st, options, env, construct);
      init.Ok? && verify(init.value.stripe.value, init.value.webhookSecret.value, req) == Err(e)
      ==> Step(st, req, env, options, construct, verify, handler) == (init.value, Rejection(e))
    ensures var init := Initialised(st, options, env, construct);
      init.Ok? ==> var event := verify(init.value.stripe.value, init.value.webhookSecret.value, req);
        (event.Ok? && handler(req, init.value.stripe.value, event.value) == Err(e)
         ==> Step(st, req, env, options, construct, verify, handler) == (init.value, Rejection(e)))
    ensures !e.ThrownNullish? ==> Rejection<D>(e) == Response(400, Failure(GetErrorMessage(e).value))
  {
  }

  /** A normal return of the handler, after client creation and verification
      succeeded, is answered 200 with `{ ok: true, data }`. */
  lemma ReturnAnswered<C, E, D>(st: EndpointState<C>, req: Request, env: Env,
                                options: Option<CreateOptions<C>>,
                                construct: (string, Options) -> Result<C, Thrown>,
                                verify: (C, string, Request) -> Result<E, Thrown>,
                                handler: (Request, C, E) -> Result<D, Thrown>, data: D)
    requires Consistent(st) && IsBodyMethod(req.httpMethod)
    ensures var init := Initialised(st, options, env, construct);
      init.Ok? ==> var event := verify(init.value.stripe.value, init.value.webhookSecret.value, req);
        (event.Ok? && handler(req, init.value.stripe.value, event.value) == Ok(data)
         ==> Step(st, req, env, options, construct, verify, handler) == (init.value, Response(200, Success(data))))
  {
  }

  /** A sequence of requests against one endpoint. */
  function Run<C, E, D>(st: EndpointState<C>, reqs: seq<Request>, env: Env, options: Option<CreateOptions<C>>,
                        construct: (string, Options) -> Result<C, Thrown>,
                        verify: (C, string, Request) -> Result<E, Thrown>,
                        handler: (Request, C, E) -> Result<D, Thrown>): (r: (EndpointState<C>, seq<Response<D>>))
    requires Consistent(st)
    ensures Consistent(r.0) && |r.1| == |reqs|
    decreases |reqs|
  {
    if |reqs| == 0 then (st, [])
    else
      var (st', resp) := Step(st, reqs[0], env, options, construct, verify, handler);
      var (last, resps) := Run(st', reqs[1..], env, options, construct, verify, handler);
      (last, [resp] + resps)
  }

  /** Once a client is held, no later request replaces it or its secret. */
  lemma {:induction false} RunKeepsClient<C, E, D>(st: EndpointState<C>, reqs: seq<Request>, env: Env,
                                                  options: Option<CreateOptions<C>>,
                                                  construct: (string, Options) -> Result<C, Thrown>,
                                                  verify: (C, string, Request) -> Result<E, Thrown>,
                                                  handler: (Request, C, E) -> Result<D, Thrown>)
    requires Consistent(st) && st.stripe.Some?
    ensures Run(st, reqs, env, options, construct, verify, handler).0 == st
    decreases |reqs|
  {
    if |reqs| > 0 {
      RunKeepsClient(st, reqs[1..], env, options, construct, verify, handler);
    }
  }

  /** The client is created at most once: starting from the unset state, the
      state at the end of any run is either still unset or holds the one
      client `createDefaultStripe` returns with that secret. */
  lemma {:induction false} RunCreatesClientOnce<C, E, D>(reqs: seq<Request>, env: Env,
                                                        options: Option<CreateOptions<C>>,
                                                        construct: (string, Options) -> Result<C, Thrown>,
                                                        verify: (C, string, Request) -> Result<E, Thrown>,
                                                        handler: (Request, C, E) -> Result<D, Thrown>)
    ensures var last := Run(EndpointState(None, None), reqs, env, options, construct, verify, handler).0;
      var c := CreateDefaultStripe(options, env, construct);
      last == EndpointState(None, None)
      || (c.Ok? && last == EndpointState(Some(c.value.stripe), Some(c.value.webhookSecret)))
    decreases |reqs|
  {
    if |reqs| > 0 {
      var st' := Step(EndpointState(None, None), reqs[0], env, options, construct, verify, handler).0;
      if st'.stripe.Some? {
        RunKeepsClient(st', reqs[1..], env, options, construct, verify, handler);
      } else {
        RunCreatesClientOnce(reqs[1..], env, options, construct, verify, handler);
      }
    }
  }

  /** `defineStripeWebhook(handler, options)`: the returned event handler
      with the two variables it closes over. */
  class WebhookEndpoint<C, E, D> {
    var stripe: Option<C>
    var webhookSecret: Option<string>
    const options: Option<CreateOptions<C>>
    const construct: (string, Options) -> Result<C, Thrown>
    const verify: (C, string, Request) -> Result<E, Thrown>
    const handler: (Request, C, E) -> Result<D, Thrown>

    function State(): EndpointState<C>
      reads this
    {
      EndpointState(stripe, webhookSecret)
    }

    predicate Valid()
      reads this
    {
      Consistent(State())
    }

    constructor(handler: (Request, C, E) -> Result<D, Thrown>, options: Option<CreateOptions<C>>,
                construct: (string, Options) -> Result<C, Thrown>,
                verify: (C, string, Request) -> Result<E, Thrown>)
      ensures Valid() && State() == EndpointState(None, None)
      ensures this.handler == handler && this.options == options
      ensures this.construct == construct && this.verify == verify
    {
      stripe := None;
      webhookSecret := None;
      this.handler := handler;
      this.options := options;
      this.construct := construct;
      this.verify := verify;
    }

    /** Answers one request, creating the client on the first request that
        gets that far. */
    method Handle(req: Request, env: Env) returns (resp: Response<D>)
      requires Valid()
      modifies this
      ensures Valid()
      ensures (State(), resp) == Step(old(State()), req, env, options, construct, verify, handler)
    {
      if !IsBodyMethod(req.httpMethod) {
        return Response(400, Failure("Unsupported Method: " + req.httpMethod));
      }
      if stripe.None? {
        var created := CreateDefaultStripe(options, env, construct);
        if created.Err? {
          return Rejection(created.error);
        }
        webhookSecret := Some(created.value.webhookSecret);
        stripe := Some(created.value.stripe);
      }
      var event := verify(stripe.value, webhookSecret.value, req);
      if event.Err? {
        return Rejection(event.error);
      }
      var result := handler(req, stripe.value, event.value);
      if result.Err? {
        return Rejection(result.error);
      }
      return Response(200, Success(result.value));
    }
  }
}
