# nuxt-stripe, modelled in Dafny

A model of the logic at the heart of the `@fixers/nuxt-stripe` Nuxt module, with proofs about it.

- **`stripe listen` bridge** (`src/module.ts`). In development the module starts the Stripe CLI and reads its output. Lines written on stdout that start with `{` go through `JSON.parse` and are handed to a callback. A stderr chunk that announces the webhook signing secret is turned into one message. `setup` passes in a callback that logs that message. Modelled in `cli_listener.dfy`, module `CliListener`.
- **Client options** (`src/runtime/app/composables/useStripe.ts`). `useStripe` merges the runtime-config options with the caller's options. It falls back to the configured publishable key. It builds a reload key from the merged options. It loads Stripe.js again only when that key changes. Modelled in `use_stripe.dfy`, module `ClientOptions`. The `stripe` ref is the class `StripeRef`. Its constant `corrected` chooses the key the watcher compares: `false` gives `hashKey` as written (`HashKey`), `true` gives the corrected key `HashKeyWithAccount` (see Findings).
- **Webhook endpoint** (`src/runtime/server/stripe.ts`). The server reads the secrets from the environment. It builds a default Stripe client. `defineStripeWebhook` returns an endpoint that:
  - answers 400 to any method other than `POST`, `PUT`, `PATCH` and `DELETE`;
  - creates the client lazily, keeping it in its closure;
  - verifies the event and runs the user's handler;
  - turns any failure into a `400` answer carrying the error's message.

  Modelled in `server_webhook.dfy`, module `WebhookServer`. The closure is the class `WebhookEndpoint`.

Supporting modules:
- `js_text.dfy`, module `JsText`: the JavaScript string operations the code relies on. These are `trim` (with the ECMAScript white-space set), `split` on one character, `startsWith`, the default `sort` order and decimal rendering of numbers.
- `js_value.dfy`, module `JsValue`: scalar JavaScript values, truthiness, `String(x)` and option objects as maps.
- `wrappers.dfy`, module `Wrappers`: `Option` and `Result`.

Some behaviour is a call into code outside the module. Each such call becomes a function parameter, and no property is assumed of it:
- `JSON.parse` (`parse`);
- `joinURL` (`joinURL`);
- `loadStripe` (`load`) and `registerAppInfo` (`register`);
- the Stripe SDK constructor (`construct`);
- webhook signature verification (`verify`);
- the user's webhook handler (`handler`).

`process.env` is a map passed in. A thrown value is the datatype `Thrown`.

How the stream handlers in `src/module.ts` treat their input:
- **No buffering across chunks.** `src/module.ts:246-270` keeps nothing from one `data` event to the next. Every stdout chunk is split, trimmed and dispatched on its own. `CliListener.SplitLineNotReassembled` states the consequence: a JSON line cut in two by a chunk boundary reaches the handler as its first half only, and the second half is dropped when it does not start with `{`. When it does, as for a line cut before a nested object (`{"data":` and `{"id":"evt_1"}}`), `CliListener.SplitLineBothHalvesHandedOn` shows that each half is handed on by itself. Lines are split on `'\n'` alone; a trailing `'\r'` goes away with `trim`.
- **Stderr output without the announcement is dropped** (`src/module.ts:276`). Only a chunk that matches the secret pattern causes a handler call.

The stderr pattern `/Your webhook signing secret is (\S+)/` is unanchored. It is modelled with the regular expression's leftmost-match rule. The match is at the first position where the prefix is followed by a character that is not white space. That need not be the first occurrence of the prefix text. Text before the announcement, such as the CLI's `Ready!` line, is allowed (`CliListener.AnnouncedSecret`).

## Model

| member | source | states |
|---|---|---|
| `JsText.TrimStart` | src/module.ts:254 | The result is a suffix of the input; everything removed is white space; the result is empty or starts with a non-space |
| `JsText.TrimEnd` | src/module.ts:254 | The result is a prefix of the input; everything removed is white space; the result is empty or ends with a non-space |
| `JsText.Trim` | src/module.ts:254 | A trimmed string is no longer than its input, and is empty or neither starts nor ends with white space |
| `JsText.TrimIsInnerPiece` | src/module.ts:254 | `trim` keeps a contiguous piece of the input and removes only white space on either side |
| `JsText.TrimUnchanged` | src/module.ts:254 | A string that neither starts nor ends with white space is left as it is by `trim` |
| `JsText.TrimIdempotent` | src/module.ts:254 | Trimming twice is trimming once |
| `JsText.Split` | src/module.ts:253 | `split('\n')` always returns at least one piece, and no piece contains the separator |
| `JsText.JoinSplit` | src/module.ts:253 | Joining the pieces of `split` with the separator gives the input back |
| `JsText.SplitJoin` | src/module.ts:253 | Splitting separator-free pieces joined by the separator gives the pieces back |
| `JsText.SplitNoSeparator` | src/module.ts:253 | A string without the separator splits into itself alone |
| `JsText.SplitAppend` | src/module.ts:253 | `a + sep + b` with `sep` not in `a` splits into `a` followed by the pieces of `b` |
| `JsText.LessEqTotal` | src/runtime/app/composables/useStripe.ts:79 | The default `sort` order on strings is total |
| `JsText.LessEqTransitive` | src/runtime/app/composables/useStripe.ts:79 | The default `sort` order on strings is transitive |
| `JsText.LessEqAntisymmetric` | src/runtime/app/composables/useStripe.ts:79 | Two strings each ordered before the other are equal |
| `JsText.Insert` | src/runtime/app/composables/useStripe.ts:79 | Inserting into a list adds exactly that element (multiset) |
| `JsText.InsertSorted` | src/runtime/app/composables/useStripe.ts:79 | Inserting into a sorted list keeps it sorted |
| `JsText.Sort` | src/runtime/app/composables/useStripe.ts:79 | `sort()` returns a sorted permutation of its input |
| `JsText.SortedUnique` | src/runtime/app/composables/useStripe.ts:79 | Two sorted lists with the same elements are equal |
| `JsText.SortPermutationInvariant` | src/runtime/app/composables/useStripe.ts:79 | Lists holding the same elements in any order sort to the same list |
| `JsText.NatToDecimal` | src/module.ts:215 | A port renders as decimal digits that denote it, with no leading zero |
| `JsValue.PrimToString` | src/runtime/app/composables/useStripe.ts:79 | `String(x)` of a string is the string itself, and of a truthy scalar is never empty |
| `JsValue.Truthy` | src/runtime/app/composables/useStripe.ts:54 | What `||`, `||=` and `filter(Boolean)` test: `undefined`, `null`, `false`, `0` and `''` are falsy; arrays and objects are truthy |
| `CliListener.ListenerPath` | src/module.ts:217 | The forwarding path is the configured listener path, or `/api/stripe/webhook` when that is unset or empty; it is never empty |
| `CliListener.ListenerInvocation` | src/module.ts:215-234 | A process is started exactly when in development with the listener not set to `false` (src/module.ts:195). It is `stripe listen` with seven arguments: the module-option secret, or the runtime-config secret when that is empty; the URL `joinURL` makes of `http://localhost:<port>` and the listener path; in the order `listen`, `--api-key`, secret, `--forward-to`, URL, `--format`, `JSON` |
| `CliListener.ListenerFlags` | src/module.ts:226-234 | Read back flag by flag, the command line gives `--api-key` the resolved secret, `--forward-to` the URL and `--format` `JSON` |
| `CliListener.DropEmpty` | src/module.ts:255 | `filter(Boolean)` keeps only non-empty strings, each taken from its input, and never more than it was given |
| `CliListener.Lines` | src/module.ts:252-255 | A chunk gives no more lines than it has pieces between newlines, and no line is empty |
| `CliListener.LinesAreTrimmedPieces` | src/module.ts:252-255 | Every line of a chunk is a trimmed piece between newlines: non-empty, without `'\n'`, neither starting nor ending with white space |
| `CliListener.Classify` | src/module.ts:258-267 | A line goes to the handler as the parsed value when `JSON.parse` succeeds, and as the unchanged line when it throws |
| `CliListener.Forwarded` | src/module.ts:257-268 | At most one call per line; a text call always carries one of the lines, and one that starts with `{` |
| `CliListener.StdoutPayloads` | src/module.ts:252-269 | A chunk causes at most one call per line; a text call carries a line of the chunk that starts with `{` |
| `CliListener.HandleStdoutChunk` | src/module.ts:246-270 | The loop over the lines makes exactly the handler calls `StdoutPayloads` specifies, in order |
| `CliListener.StdoutConcat` | src/module.ts:252-269 | The calls for `a + "\n" + b` are the calls for `a` followed by the calls for `b` |
| `CliListener.StdoutSingleLine` | src/module.ts:252-269 | A chunk without a newline causes at most one call: the classified trimmed line, when it starts with `{` |
| `CliListener.BraceLines` | src/module.ts:258 | The lines selected are lines of the input that start with `{` |
| `CliListener.ForwardedAreBraceLines` | src/module.ts:257-268 | There is one call per line starting with `{`, in line order, and no call for any other line |
| `CliListener.WholeLineHandedOn` | src/module.ts:246-270 | A JSON line that arrives whole in one chunk is handed on as exactly one value |
| `CliListener.SplitLineNotReassembled` | src/module.ts:246-270 | A line cut across two chunks gives one call with its first half, and a second half that does not start with `{` gives none; the whole line would have given the whole line |
| `CliListener.SplitLineBothHalvesHandedOn` | src/module.ts:246-270 | A line cut across two chunks whose second half starts with `{` gives two calls, one per half, where the whole line gives one |
| `CliListener.FirstMatch` | src/module.ts:274 | It finds the leftmost position where the prefix is followed by a non-space character, and there is none before it |
| `CliListener.FirstMatchIs` | src/module.ts:274 | The first position where the pattern matches is the one the search returns |
| `CliListener.TokenFrom` | src/module.ts:274 | `\S+` takes the maximal run of non-white-space characters |
| `CliListener.TokenFromIs` | src/module.ts:274 | Any maximal non-space run at a position is what `\S+` captures there |
| `CliListener.SigningSecret` | src/module.ts:274 | A secret is captured exactly when the pattern matches somewhere. It is the non-empty maximal non-space run after the prefix at the leftmost match |
| `CliListener.SecretMessage` | src/module.ts:277 | The message is the prefix, then the token between two backticks; it starts with `Your webhook signing secret` |
| `CliListener.StderrMessages` | src/module.ts:272-279 | A stderr chunk causes at most one call, and one exactly when the pattern matches. That call is the message for the token at the leftmost match, and it starts with `Your webhook signing secret` |
| `CliListener.AnnouncedSecret` | src/module.ts:274-277 | A chunk holding the announcement after any text without an earlier match (such as the CLI's ready line) forwards exactly `` Your webhook signing secret is `<token>` `` for the maximal token after it |
| `CliListener.SetupHandlerAsWritten` | src/module.ts:196-202 | As written, the callback throws exactly when handed a parsed JSON value |
| `CliListener.StderrMessagesLogged` | src/module.ts:199-200 | Every message built from stderr is logged by the setup callback |
| `CliListener.SetupHandlerThrowsOnEvent` | src/module.ts:199 | A stdout JSON line that parses reaches the callback as an object, and the callback as written throws on it |
| `CliListener.SetupHandlerThrowCutsChunk` | src/module.ts:257-268 | When such a line comes first in a chunk, the call that throws is the chunk's first, so the throw ends the `for` loop before any later line of the chunk is handed on |
| `CliListener.SetupHandler` | src/module.ts:196-202 | The corrected callback never throws. It logs exactly the text lines that start with the announcement |
| `CliListener.SetupHandlerNeverThrows` | src/module.ts:196-202 | With the corrected callback no stdout chunk causes a throw, and every stderr message is still logged |
| `ClientOptions.MergeOptions` | src/runtime/app/composables/useStripe.ts:47-57 | Caller fields override runtime-config option fields; every other field comes from the config; the publishable key is always present and is the merged one when truthy, else the configured one |
| `ClientOptions.ResolvedPublishableKey` | src/runtime/app/composables/useStripe.ts:54 | The resolved publishable key is the caller's if truthy, otherwise the runtime config's |
| `ClientOptions.MergeWithBetas` | src/runtime/app/composables/useStripe.ts:47-57 | The betas a caller passes end up unchanged in the merged options |
| `ClientOptions.BetaStrings` | src/runtime/app/composables/useStripe.ts:79 | `filter(Boolean).map(String)` gives at most one string per entry, and none of them empty |
| `ClientOptions.BetasSegment` | src/runtime/app/composables/useStripe.ts:79 | The betas part of the key is empty exactly when `betas` is absent or has no truthy entry |
| `ClientOptions.BetaStringsAppend` | src/runtime/app/composables/useStripe.ts:79 | `filter(Boolean).map(String)` distributes over concatenation |
| `ClientOptions.BetaStringsPermutation` | src/runtime/app/composables/useStripe.ts:79 | Permuting the betas permutes their strings |
| `ClientOptions.HashKey` | src/runtime/app/composables/useStripe.ts:67-81 | For every value, with or without `-` in it: read at the offsets the field lengths give, the key is publishable key, API version, API version again, locale, each followed by `-`, then the sorted betas; an absent or falsy field is an empty segment |
| `ClientOptions.HashKeyWithBetas` | src/runtime/app/composables/useStripe.ts:67-81 | Replacing the betas changes only the last segment of the key |
| `ClientOptions.HashKeyPermutationInvariant` | src/runtime/app/composables/useStripe.ts:77-79 | Any reordering of `betas` gives the same key |
| `ClientOptions.HashKeyIgnoresFalsyBeta` | src/runtime/app/composables/useStripe.ts:79 | A falsy entry inserted anywhere in `betas` leaves the key unchanged |
| `ClientOptions.HashKeyShape` | src/runtime/app/composables/useStripe.ts:67-81 | Split on `-`, the key reads publishable key, API version, API version again, locale, then the betas, when those fields hold no `-` |
| `ClientOptions.HashKeyIgnoresStripeAccount` | src/runtime/app/composables/useStripe.ts:67-81 | As written, changing `stripeAccount` never changes the key |
| `ClientOptions.HashKeySameExceptAccount` | src/runtime/app/composables/useStripe.ts:67-83 | As written, options that differ only in `stripeAccount` have the same key, so the watcher does not fire |
| `ClientOptions.HashKeyWithAccount` | src/runtime/app/composables/useStripe.ts:67-81 | The corrected key: `stripeAccount` takes the place of the second API version |
| `ClientOptions.HashKeyWithAccountFields` | src/runtime/app/composables/useStripe.ts:67-81 | The corrected key reads back as publishable key, API version, account, locale and betas, for every value |
| `ClientOptions.HashKeyWithAccountTracksAccount` | src/runtime/app/composables/useStripe.ts:67-81 | With `stripeAccount` in the third segment, two account values give the same key exactly when they render the same |
| `ClientOptions.HashKeyWithAccountSameExceptAccount` | src/runtime/app/composables/useStripe.ts:67-83 | With the corrected key, options that differ only in `stripeAccount` have the same key exactly when the account renders the same |
| `ClientOptions.HashKeyWithAccountPermutationInvariant` | src/runtime/app/composables/useStripe.ts:77-79 | The corrected key, too, is the same for any reordering of `betas` |
| `ClientOptions.MergeSameExceptAccount` | src/runtime/app/composables/useStripe.ts:47-57 | Callers that differ only in `stripeAccount` give merged options that differ only there |
| `ClientOptions.CallerBetasOrderIgnored` | src/runtime/app/composables/useStripe.ts:47-81 | Callers passing the same betas in a different order get the same watched key after the merge, as written and corrected |
| `ClientOptions.Reloaded` | src/runtime/app/composables/useStripe.ts:84-110 | Without a truthy publishable key the ref is unchanged. Otherwise it takes the loaded instance once `registerAppInfo` has returned, and keeps its value when loading gives null or throws |
| `ClientOptions.StripeRef.constructor` | src/runtime/app/composables/useStripe.ts:36-117 | The ref starts as null, and the watcher runs once straight away on the merged options |
| `ClientOptions.StripeRef.Reload` | src/runtime/app/composables/useStripe.ts:83-111 | The watch callback changes only the ref, as `Reloaded` says |
| `ClientOptions.StripeRef.SetCaller` | src/runtime/app/composables/useStripe.ts:83-117 | New caller options recompute the options and the key; the ref is reloaded only when the key differs. With the key as written, a change of `stripeAccount` alone leaves the ref as it was; with the corrected key it reloads when the account renders differently |
| `WebhookServer.DefaultStripeSecret` | src/runtime/server/stripe.ts:14-16 | The first non-empty of `NUXT_STRIPE_SECRET`, `STRIPE_CLIENT_SECRET`, `STRIPE_SECRET`; empty exactly when all three are unset or empty |
| `WebhookServer.DefaultStripeWebhookSecret` | src/runtime/server/stripe.ts:26-28 | The first non-empty of `NUXT_STRIPE_WEBHOOK_SECRET`, `STRIPE_WEBHOOK_SECRET`; empty exactly when both are unset or empty |
| `WebhookServer.DefaultsComeFromEnv` | src/runtime/server/stripe.ts:14-28 | A non-empty default is the value of one of the variables it names |
| `WebhookServer.ClientConfig` | src/runtime/server/stripe.ts:77-80 | The client config has `apiVersion` `2022-11-15` unless the given config sets it; every given field is kept as given |
| `WebhookServer.ResolvedWebhookSecret` | src/runtime/server/stripe.ts:76 | A non-empty webhook secret in the options beats the environment; an absent or empty one falls back to it |
| `WebhookServer.ResolvedApiKey` | src/runtime/server/stripe.ts:77 | A non-empty API key in the options beats the environment; an absent or empty one falls back to it |
| `WebhookServer.CreateDefaultStripe` | src/runtime/server/stripe.ts:75-86 | A given client is returned as-is and `apiKey`, `config` and the constructor are ignored. Otherwise the client is the one built from the resolved key and config, and the result fails exactly when that construction throws. The webhook secret is always the resolved one |
| `WebhookServer.GivenClientIgnoresKeyAndConfig` | src/runtime/server/stripe.ts:77 | With a client given, `apiKey`, `config` and the constructor make no difference |
| `WebhookServer.GetErrorMessage` | src/runtime/server/stripe.ts:239-249 | A thrown string is its own message; otherwise the `message` property when it is a string, and `''` when not. Reading `message` off `null` or `undefined` throws, which is the `None` case |
| `WebhookServer.Rejection` | src/runtime/server/stripe.ts:217-226 | A failure answers 400 with `ok: false` and the message `getErrorMessage` gives; when that throws, the endpoint has no answer of its own |
| `WebhookServer.Initialised` | src/runtime/server/stripe.ts:196-202 | A client already held is kept; otherwise both variables are set from one `createDefaultStripe` result, or neither when it throws |
| `WebhookServer.Step` | src/runtime/server/stripe.ts:182-233 | One request keeps both closure variables set or unset together; a held client is never replaced; the status is 200 exactly on success and 400 otherwise |
| `WebhookServer.UnsupportedMethodRejected` | src/runtime/server/stripe.ts:184-191 | A request whose method is not POST, PUT, PATCH or DELETE gets 400 with `Unsupported Method: <M>`; no client is created and the handler does not run |
| `WebhookServer.ThrowAnswered` | src/runtime/server/stripe.ts:195-226 | A throw from client creation, verification or the handler is answered with the catch block's response for it: 400 with `getErrorMessage(e)` whenever that read does not throw |
| `WebhookServer.ReturnAnswered` | src/runtime/server/stripe.ts:204-232 | When client creation and verification succeed and the handler returns `data`, the answer is 200 with `{ ok: true, data }` |
| `WebhookServer.SuccessCarriesHandlerResult` | src/runtime/server/stripe.ts:204-232 | A success carries exactly what the handler returned for the verified event, with the endpoint's client |
| `WebhookServer.FailureCarriesErrorMessage` | src/runtime/server/stripe.ts:195-226 | Any failure after the method gate is a 400 whose message `getErrorMessage` extracts from what client creation, verification or the handler threw |
| `WebhookServer.Run` | src/runtime/server/stripe.ts:182-233 | Over a sequence of requests the closure variables stay consistent, and there is one answer per request |
| `WebhookServer.RunKeepsClient` | src/runtime/server/stripe.ts:175-202 | Once a client is held, no later request replaces it or its secret |
| `WebhookServer.RunCreatesClientOnce` | src/runtime/server/stripe.ts:175-202 | After any sequence of requests, the endpoint holds nothing or the single client `createDefaultStripe` returns: it is initialised at most once |
| `WebhookServer.WebhookEndpoint.constructor` | src/runtime/server/stripe.ts:161-182 | A new endpoint holds no client and no secret |
| `WebhookServer.WebhookEndpoint.Handle` | src/runtime/server/stripe.ts:182-233 | Handling a request updates the closure variables and answers exactly as `Step` specifies |

## Left out

- Spawning the CLI and wiring its streams (`startSubprocess`, `.on('data')`, `toString()` on a buffer) are I/O. A chunk is an input string, and the handler calls are the output sequence.
- `JSON.parse`, `joinURL`, `loadStripe`, `registerAppInfo`, the Stripe SDK constructor and `constructEvent` are parameters. Nothing is assumed about them beyond determinism. In `setup`, a parsed value is taken to be an object, because a line that starts with `{` and parses is one.
- `createStripeEvent` (src/runtime/server/stripe.ts:114-125) is inside the `verify` parameter. That covers reading the header and the raw body, and its non-null assertions.
- The `defu` merges that `setup` writes into the runtime config (src/module.ts:157-175) are not modelled. The runtime-config secret is an input of `CliListener.ListenerInvocation`.
- Logger output, `console.error` and the devtools registration of the process are not modelled.
- Vue reactivity is not modelled: `computed`, `watch`, `shallowRef` and `provide`. The watcher's trigger is `StripeRef.SetCaller` comparing keys. Overlapping asynchronous loads, and the order in which they finish, are not modelled.
- Building the key does not mutate the caller's `betas`. In the model values are immutable, so this holds by construction rather than being proved about aliasing.
- An object in `betas` renders as a plain object's `[object Object]`. Objects with their own `toString` and nested arrays inside `betas` are not modelled.
- JavaScript numbers are unbounded integers. Fractions, `NaN` and `Infinity` are not modelled.
- `JsText.Sort` compares characters by code point. JavaScript compares UTF-16 code units. The two orders differ only on characters outside the Basic Multilingual Plane.
- The h3 request method is taken as the upper-case string `getMethod` reports. `isMethod`'s `HEAD` allowance is not used here.
- When `getErrorMessage` itself throws, h3 answers with its own error response. The model stops at `Unhandled` and does not model that response.
- ClientOptions.HashKeyShape: the read-back by splitting on `-` holds only when the publishable key, the API version and the locale hold no `-`, and real API versions such as `2022-11-15` do hold one. `ClientOptions.HashKey` states the layout for every value, by offsets.
- ClientOptions.HashKey: it, `HashKeyWithAccount`, `StripeRef` and `StripeRef.SetCaller` require `betas` to be an array or nullish (`BetasWellTyped`). For any other value, `betas?.filter` throws a `TypeError` inside the computed (src/runtime/app/composables/useStripe.ts:79), and that throw is not modelled.
- WebhookServer.Step: before `getErrorMessage` runs, the catch block interpolates the thrown value into `console.error` (src/runtime/server/stripe.ts:219). For a thrown Symbol or an object without a string conversion that interpolation throws, so the source gives no 400 answer of its own. The model answers 400 there with the message `getErrorMessage` gives.

## Findings

| source | as written | input that shows it | evidently intended | confidence | as-written member | corrected member |
|---|---|---|---|---|---|---|
| src/module.ts:196-202 | The callback `setup` passes calls `event.startsWith(...)`. The stdout listener hands it the object `JSON.parse` returned (src/module.ts:261-267) | A stdout line `{"id":"evt_1"}`: the callback receives an object without `startsWith` and throws a `TypeError` inside the stream listener, which also ends the `for` loop, so later lines of the same chunk are never handed on (`CliListener.SetupHandlerThrowCutsChunk`) | The callback looks only at strings and ignores parsed events | not executed | `CliListener.SetupHandlerThrowsOnEvent` | `CliListener.SetupHandlerNeverThrows` |
| src/runtime/app/composables/useStripe.ts:67-81 | The reload key holds `apiVersion` twice and never `stripeAccount` | Changing only `stripeAccount` from `acct_1` to `acct_2`: the key is the same, so Stripe.js is not reloaded for the new account (`StripeRef.SetCaller` with `corrected` false keeps the ref) | The third segment is `stripeAccount`, so a different account gives a different key, and `StripeRef.SetCaller` with `corrected` true reloads | not executed | `ClientOptions.HashKeySameExceptAccount` | `ClientOptions.HashKeyWithAccountSameExceptAccount` |
