# axios request core, modelled in Dafny

This project models the request core of axios, the promise-based HTTP
client, as found in an annotated copy of its `lib/` directory:

- `Axios.prototype.request` builds the interceptor chain and drains it into
  a promise chain. `getUri` and the method aliases are modelled too.
- The cancellation pieces: `CancelToken`, `Cancel` and `isCancel`.
- The XMLHttpRequest adapter. This covers header preparation, Basic
  authentication, the `setRequestHeader` loop and the body-to-`null` rule.
  It also covers the five callbacks that settle the request promise.
- The helpers `buildURL` (with `encode`), `parseHeaders`, `combineURLs`,
  `isAbsoluteURL` and `normalizeHeaderName`.

The model takes the form of the code:

- Code that changes state is a class or a method over a class.
  - The chain array is `AxiosCore.Chain`.
  - The Axios instance is `AxiosCore.Axios`.
  - The cancel token is `CancelTokens.CancelToken`.
  - A header object is `Headers.HeaderObject`.
  - The adapter's local `request` handle is `XhrAdapter.XhrRequest`.
- Each such method is proved against a function that specifies it.
- Code that only computes (`Cancel.toString`, `isCancel`, `combineURLs`,
  `isAbsoluteURL`, `encode`) is written as functions.

A JavaScript object is an ordered association list with distinct keys
(`Headers`). Assigning to a key that is present changes its value in
place. Assigning to a new key appends it. `delete` removes the key. This
is the order in which `for…in` and `utils.forEach` visit keys. The
object `parseHeaders` returns is the exception: it is modelled as an
unordered map (see "Left out").

A promise is a value: the chain of `then` calls made on it.
`AxiosCore.Settle` gives the outcome that chain reaches. Interceptor
handlers and `dispatchRequest` are names interpreted by an environment
(`AxiosCore.Env`), and `mergeConfig` is a parameter.

`btoa` and `encodeURIComponent` come from the host and are modelled
outright:

- `btoa` is section 4 of RFC 4648, over strings whose code units are
  below 256 (`Base64`).
- `encodeURIComponent` is UTF-8 followed by percent-encoding everything
  outside the unreserved set (`UriEncoding`).

Support modules: `Wrappers` (Option, Result) and `Strings` (ASCII case
mapping, JavaScript `trim`, `indexOf`, `split` and `join`).

## Model

| member | source | states |
|---|---|---|
| AxiosCore.Axios.constructor | lib/core/Axios.js:10-18 | A new instance keeps the given defaults and has empty request and response interceptor registries. |
| AxiosCore.Chain.Unshift | lib/core/Axios.js:61 | `chain.unshift(f, r)` puts the two slots in front of the array, in that order. |
| AxiosCore.Chain.Push | lib/core/Axios.js:70 | `chain.push(f, r)` puts the two slots at the end of the array, in that order. |
| AxiosCore.Chain.Shift | lib/core/Axios.js:91 | `chain.shift()` returns the first slot (nothing for an empty array) and leaves the array one slot shorter. |
| AxiosCore.Axios.AssembleChain | lib/core/Axios.js:51-71 | The array holds the request interceptors' slots unshifted one by one, then `dispatchRequest` and an absent rejection slot, then the response interceptors' slots pushed one by one; it is `ChainSpec`, of length 2·(r+s+1). |
| AxiosCore.RequestSlotsOrder | lib/core/Axios.js:55-62 | Read two slots at a time, the unshifted request slots are the interceptors in reverse of the registry's visiting order: the last one visited runs first. |
| AxiosCore.ResponseSlotsOrder | lib/core/Axios.js:64-71 | Read two slots at a time, the pushed response slots are the interceptors in the registry's visiting order. |
| AxiosCore.ChainOrder | lib/core/Axios.js:51-71 | The whole array, read in pairs, is the reversed request interceptors, then (`dispatchRequest`, absent), then the response interceptors. |
| AxiosCore.Drain | lib/core/Axios.js:81-92 | The `while (chain.length)` loop attaches every front pair, fulfilled slot then rejected slot, to the promise exactly once in array order, and leaves the array empty. |
| AxiosCore.AttachLinks | lib/core/Axios.js:81-92 | Attaching an array adds exactly its pairs, in order, to the promise's chain of `then` calls. |
| AxiosCore.AttachSettles | lib/core/Axios.js:91 | The promise built by the loop settles as the fold of `then` over the array's pairs, starting from the outcome of the start promise. |
| AxiosCore.RunAppend | lib/core/Axios.js:91 | Running two runs of `then` links one after the other is running their concatenation. |
| AxiosCore.RejectionPassesThrough | lib/core/Axios.js:91 | A rejection passes unchanged through links that have no rejection handler. |
| AxiosCore.Axios.Request | lib/core/Axios.js:21-95 | `request` returns the normalised config and the promise that starts fulfilled with that config and carries the interceptor chain of the registries as they are during the call. |
| AxiosCore.NoInterceptorsDispatch | lib/core/Axios.js:51-53 | With no interceptors, the request settles as `dispatchRequest` applied to the config. |
| AxiosCore.RequestErrorBypassesDispatch | lib/core/Axios.js:51-92 | A request-side rejection that no later request interceptor handles skips `dispatchRequest`, whose rejection slot is absent, and goes straight to the response interceptors. |
| AxiosCore.ArgumentConfig | lib/core/Axios.js:22-30 | A string first argument becomes `url` of the second argument, or of `{}`; otherwise the given config is used, or `{}` when it is missing. |
| AxiosCore.StringFormSetsUrl | lib/core/Axios.js:22-26 | The string form changes only the `url` of the given config. |
| AxiosCore.NormalizedMethodIsLower | lib/core/Axios.js:36-43 | The final method is non-empty and lower-case, and normalising it again changes nothing. |
| AxiosCore.StripsOneQuestion | lib/core/Axios.js:99-102 | Only the first "?" goes: "?" + rest becomes rest, even when rest starts with "?". |
| AxiosCore.GetUri | lib/core/Axios.js:97-103 | `getUri` fails with a TypeError exactly when the merged config has no `url`. |
| AxiosCore.GetUriBareQuery | lib/core/Axios.js:97-103 | With an empty URL and a non-empty query, `getUri` gives the bare query without its "?". |
| AxiosCore.GetUriKeepsBuiltUrl | lib/core/Axios.js:97-103 | Without params, a URL that does not start with "?" comes back unchanged. |
| AxiosCore.Axios.GetUriOf | lib/core/Axios.js:97-103 | The instance method gives `GetUri` over its own defaults. |
| AxiosCore.Axios.RequestNoData | lib/core/Axios.js:106-120 | `delete`, `get`, `head` and `options` call `request` with the merge of the given config and {method, url, data of the given config}. |
| AxiosCore.Axios.RequestWithData | lib/core/Axios.js:123-134 | `post`, `put` and `patch` call `request` with the merge of the given config and {method, url, data}. |
| AxiosCore.NoDataAliasSends | lib/core/Axios.js:106-120 | When `mergeConfig` lets its second argument's fields win, a body-less alias sends its own method name and URL, and the config's own `data`. |
| AxiosCore.DataAliasSends | lib/core/Axios.js:123-134 | When `mergeConfig` lets its second argument's fields win, a body alias sends its own method name, URL and body. |
| AxiosCore.AliasNameLower | lib/core/Axios.js:107 | The alias names are already lower-case, so normalisation keeps them. |
| CancelRecord.ToString | lib/cancel/Cancel.js:13-15 | `toString` starts with "Cancel" and is longer exactly when the message is truthy. |
| CancelRecord.ToStringRoundTrip | lib/cancel/Cancel.js:9-15 | A truthy message can be read back from "Cancel: " + message; otherwise the text is exactly "Cancel". |
| CancelRecord.ToStringInjective | lib/cancel/Cancel.js:13-15 | Two instances print alike exactly when both messages are falsy, or both are the same truthy message. |
| IsCancelCheck.IsCancel | lib/cancel/isCancel.js:4-6 | True for every `Cancel` instance, whose marker is the prototype's `true` (lib/cancel/Cancel.js:18). False for every falsy value and every primitive. For any other object, true exactly when its own marker is truthy. |
| IsCancelCheck.MarkerNotType | lib/cancel/isCancel.js:4-6 | A non-`Cancel` object with a truthy marker passes; one with a falsy or missing marker fails. |
| CancelTokens.CancelToken.constructor | lib/cancel/CancelToken.js:19-24 | A new token has no reason and a pending promise. |
| CancelTokens.CancelToken.ResolvePromise | lib/cancel/CancelToken.js:19-24 | The captured `resolve` settles the promise once; later calls are ignored. |
| CancelTokens.CancelToken.Cancel | lib/cancel/CancelToken.js:49-57 | The first call sets `reason` to `Cancel(message)` and resolves the promise with that same reason; later calls change nothing. The promise stays resolved exactly with the reason. |
| CancelTokens.ReasonAfter | lib/cancel/CancelToken.js:49-57 | After a series of `cancel` calls the reason is the first call's `Cancel`, and there is none without a call. |
| CancelTokens.CancelToken.ThrowIfRequested | lib/cancel/CancelToken.js:79-83 | Fails with exactly the stored reason when the token is cancelled, and otherwise succeeds; it changes nothing. |
| CancelTokens.NewCancelToken | lib/cancel/CancelToken.js:14-73 | A non-function executor gives the TypeError "executor must be a function."; a function executor gives a fresh token whose reason is what its synchronous `cancel` calls left. |
| CancelTokens.InvokeCanceler | lib/cancel/CancelToken.js:49-57 | A `cancel` function handed out cancels its own token, once. |
| CancelTokens.Source | lib/cancel/CancelToken.js:92-101 | `source()` returns a fresh uncancelled token together with a `cancel` bound to that same token. |
| XhrAdapter.TimeoutMessage | lib/adapters/xhr.js:156-161 | A set `timeoutErrorMessage` is the message; otherwise it is "timeout of " + the decimal text of the timeout, whose digits denote the timeout itself, + "ms exceeded". |
| Strings.NatToStringValue | lib/adapters/xhr.js:156 | The decimal text JavaScript gives a non-negative integer timeout denotes that integer, so the timeout message carries the timeout's value. |
| XhrAdapter.SettleOnceFirstWins | lib/adapters/xhr.js:128-164 | Of any series of `resolve`/`reject` calls on the adapter's promise, the first decides how it settles; on a settled promise every later call is ignored. |
| XhrAdapter.StepConsistent | lib/adapters/xhr.js:82-167 | Every callback keeps the invariant: the handle is live exactly while the promise is pending. |
| XhrAdapter.FirstSettleWins | lib/adapters/xhr.js:82-270 | Once the promise has settled, no sequence of callbacks changes how it settled. |
| XhrAdapter.LateCallbacksNoop | lib/adapters/xhr.js:90-92 | Once the handle is cleared, a load, abort or cancel callback returns early, and an error or timeout callback settles nothing new. |
| XhrAdapter.LateRunNoop | lib/adapters/xhr.js:131-268 | After the handle is cleared, any sequence of callbacks leaves the state as it is. |
| XhrAdapter.ActingCallbackClears | lib/adapters/xhr.js:131-268 | A callback that acts on a live handle settles the promise and clears the handle. |
| XhrAdapter.LoadIgnored | lib/adapters/xhr.js:90-103 | A load callback with readyState other than 4, or with status 0 and a non-`file:` URL, does nothing. |
| XhrAdapter.LoadSettles | lib/adapters/xhr.js:106-131 | A load at readyState 4 on a live handle settles as `settle` decides on the built response, whose data follows `responseType`. |
| XhrAdapter.FileUrlStatusZero | lib/adapters/xhr.js:97-103 | Status 0 on a `file:` URL is still a completed load that settles the promise. |
| XhrAdapter.TimeoutRejects | lib/adapters/xhr.js:154-167 | A timeout on a live handle rejects with the timeout message and code "ECONNABORTED". |
| XhrAdapter.CancelWhileLive | lib/adapters/xhr.js:258-270 | Cancelling while live aborts the request and clears the handle. The rejection is the token's `Cancel`, or "Request aborted" when the host runs `onabort` inside `abort()`. |
| XhrAdapter.XhrRequest.constructor | lib/adapters/xhr.js:15-28 | A new adapter call has a live handle, is not aborted and is pending. |
| XhrAdapter.XhrRequest.SettlePromise | lib/adapters/xhr.js:128-164 | Settling the promise changes only the result, and only the first time. |
| XhrAdapter.XhrRequest.HandleLoad | lib/adapters/xhr.js:82-132 | `handleLoad` changes the state as the reference step for a load event. |
| XhrAdapter.XhrRequest.HandleAbort | lib/adapters/xhr.js:135-143 | `handleAbort` is guarded by the handle, rejects with "Request aborted" and clears it. |
| XhrAdapter.XhrRequest.HandleError | lib/adapters/xhr.js:146-151 | `handleError` has no guard: it rejects with "Network Error" (ignored once settled) and clears the handle. |
| XhrAdapter.XhrRequest.HandleTimeout | lib/adapters/xhr.js:154-167 | `handleTimeout` changes the state as the reference step for a timeout event. |
| XhrAdapter.XhrRequest.OnCanceled | lib/adapters/xhr.js:258-270 | `onCanceled` changes the state as the reference step for a cancel event. |
| Headers.Put | lib/adapters/xhr.js:65 | Assigning `obj[k] = v` makes `k` read `v` and leaves every other key as it was. |
| Headers.Remove | lib/adapters/xhr.js:24 | `delete obj[k]` makes `k` missing and leaves every other key as it was. |
| Headers.HeaderObject.Set | lib/adapters/xhr.js:207 | An in-place assignment replaces the entries by `Put` of the old ones and keeps the keys distinct. |
| Headers.HeaderObject.Delete | lib/adapters/xhr.js:220 | An in-place `delete` replaces the entries by `Remove` of the old ones and keeps the keys distinct. |
| XhrSetup.WithoutFormDataType | lib/adapters/xhr.js:22-25 | A FormData body removes exactly the "Content-Type" key and keeps every other key; any other body leaves the headers alone. |
| XhrSetup.FormDataKeepsOtherSpelling | lib/adapters/xhr.js:22-25 | The FormData rule deletes only the exact spelling "Content-Type", not "content-type". |
| XhrSetup.AuthorizationValue | lib/adapters/xhr.js:56-66 | The header value is "Basic " + Base64 of the credentials, and `btoa` fails exactly when the username has a code unit of 256 or more. |
| XhrSetup.BinaryCredentials | lib/adapters/xhr.js:59-65 | The credentials `btoa` receives are binary exactly when the username is, because the password goes through the UTF-8 step. |
| XhrSetup.Utf8Binary | lib/adapters/xhr.js:61-63 | The UTF-8 step gives a string of code units below 256, at least as long as the password. |
| XhrSetup.AsciiPasswordKept | lib/adapters/xhr.js:61-63 | An ASCII password passes the UTF-8 step unchanged. |
| XhrSetup.MissingPartsEmpty | lib/adapters/xhr.js:59-63 | A missing or empty username and password give the credentials ":". |
| XhrSetup.WithAuthorization | lib/adapters/xhr.js:56-66 | With `auth`, Authorization becomes the Basic value, whatever it held, and no other key changes; without `auth` nothing changes. |
| XhrSetup.AuthorizationSet | lib/adapters/xhr.js:56-66 | After preparation the Authorization header starts with "Basic " and decodes back to the credentials' code units. |
| XhrSetup.WithXsrf | lib/adapters/xhr.js:188-209 | A truthy XSRF cookie value is stored under the XSRF header name; no other key changes. |
| XhrSetup.Prepared | lib/adapters/xhr.js:17-209 | Preparing the headers fails exactly when `auth` is given and `btoa` rejects the username. |
| XhrSetup.PreparedKeepsDistinct | lib/adapters/xhr.js:17-209 | Preparing the headers keeps the keys distinct. |
| XhrSetup.SendHeaders | lib/adapters/xhr.js:212-226 | The `setRequestHeader` loop sends every header in key order except those it deletes, and leaves exactly the sent headers in the object. |
| XhrSetup.VisitHeader | lib/adapters/xhr.js:214-225 | One visit of the loop either deletes the current key from the object or sends it. |
| XhrSetup.SendableLookup | lib/adapters/xhr.js:214-225 | A header is sent, with its value, exactly when the loop keeps its name. |
| XhrSetup.UndefinedBodyDropsContentType | lib/adapters/xhr.js:215-220 | With an undefined body, every key whose lower case is "content-type" is dropped and all others are sent. |
| XhrSetup.DefinedBodySendsAll | lib/adapters/xhr.js:214-225 | With a body other than undefined, every header is sent. |
| XhrSetup.SendableKeepsDistinct | lib/adapters/xhr.js:212-226 | The headers left after the loop have distinct keys. |
| XhrSetup.Prepare | lib/adapters/xhr.js:17-278 | The preparation up to `send`: it fails exactly as `Prepared` does, and when it fails the request's header object has only lost its `Content-Type` for `FormData` data. Otherwise the method is upper-cased, the URL is `buildURL` of the full path, the sent headers are the loop's, and the body is `SentBody`. |
| Base64.DecodeEncode | lib/adapters/xhr.js:65 | Base 64 decoding inverts `btoa`'s encoding for every byte string. |
| Base64.EncodeDecode | lib/adapters/xhr.js:65 | Every text that decodes is the encoding of what it decodes to, so the encoding is canonical. |
| Base64.PaddingAtEnd | lib/adapters/xhr.js:65 | "=" can only appear among the last two characters of the encoding. |
| Base64.Encode | lib/adapters/xhr.js:65 | The encoding has 4 characters for every 3 bytes, rounded up. |
| Base64.Btoa | lib/adapters/xhr.js:65 | `btoa` fails exactly on a string with a code unit of 256 or more, and otherwise has the Base 64 length. |
| Base64.BtoaRoundTrip | lib/adapters/xhr.js:65 | `btoa` of a binary string decodes back to its code units. |
| UriEncoding.EncodeUriComponentEncoded | lib/helpers/buildURL.js:9 | `encodeURIComponent` leaves only unreserved characters and "%XY" escapes with two upper-case hexadecimal digits. |
| UriEncoding.EncodeMeaning | lib/helpers/buildURL.js:8-16 | `encode` maps each character on its own: an unreserved character stays; ":", "$", ",", "[", "]" are restored; a space becomes "+"; anything else is its upper-case UTF-8 escapes. |
| UriEncoding.EncodeCharMeaning | lib/helpers/buildURL.js:10-15 | The replace chain applied to one character's encoding gives that character's query text. |
| UriEncoding.RestoreEscape | lib/helpers/buildURL.js:10-15 | The replace chain turns exactly the escapes of ":", "$", ",", "[", "]" and space back, and keeps every other escape. |
| UriEncoding.ReplaceKeepsEscapes | lib/helpers/buildURL.js:10-15 | A global replace of one escape by a "%"-free text keeps the other escapes well formed. |
| UriEncoding.ReplaceSplit | lib/helpers/buildURL.js:10-15 | Replacing all occurrences of an escape in text whose escapes are well formed works piece by piece. |
| UriEncoding.EncodeIsQuerySafe | lib/helpers/buildURL.js:8-16 | An encoded key or value never holds "&", "=", "#" or "?". |
| BuildUrl.Pair | lib/helpers/buildURL.js:79 | A `key=value` part never holds "&" or "#". |
| BuildUrl.PairSplits | lib/helpers/buildURL.js:79 | A part splits at "=" into exactly the encoded key and the encoded value. |
| BuildUrl.FieldParts | lib/helpers/buildURL.js:57-80 | A null or undefined value gives no part; a scalar gives one `key=v`; an array gives one `key[]=v` per element, in order. |
| BuildUrl.PushFieldParts | lib/helpers/buildURL.js:63-80 | The inner loop appends exactly the parts of one field to `parts`. |
| BuildUrl.SerializeFields | lib/helpers/buildURL.js:55-83 | The outer loop builds the parts of every field in order and joins them with "&". |
| BuildUrl.NullishSkipped | lib/helpers/buildURL.js:58-60 | Fields whose value is null or undefined contribute nothing. |
| BuildUrl.QueryDecomposes | lib/helpers/buildURL.js:83 | The serialised text splits at "&" back into its parts. |
| BuildUrl.ArrayFieldParts | lib/helpers/buildURL.js:63-79 | Each part of an array field splits at "=" into the encoded `key[]` and the encoded element. |
| BuildUrl.AppendQuery | lib/helpers/buildURL.js:86-98 | An empty query keeps the URL. Otherwise the result is the URL cut at its first "#", then "?" (or "&" if that prefix already has "?"), then the query. |
| BuildUrl.BuildUrl | lib/helpers/buildURL.js:42-101 | No params return the URL; a serializer's result is used verbatim; otherwise the fields are serialised and appended. |
| BuildUrl.EmptyQueryKeepsUrl | lib/helpers/buildURL.js:86-100 | An empty serialisation returns the URL unchanged, fragment included. |
| BuildUrl.FragmentDropped | lib/helpers/buildURL.js:89-97 | A fragment is dropped before the query is appended after "?". |
| BuildUrl.ExistingQueryExtended | lib/helpers/buildURL.js:97 | A URL that already has "?" is extended with "&" and the query. |
| BuildUrl.SpaceBecomesPlus | lib/helpers/buildURL.js:13 | A space is encoded as "+", not "%20". |
| ParseHeaders.LineKey | lib/helpers/parseHeaders.js:31-33 | A line's key is lower-case, and empty when the line has no ":". |
| ParseHeaders.Store | lib/helpers/parseHeaders.js:37-48 | Storing a line adds no key except its own, non-empty, key. |
| ParseHeaders.Parser | lib/helpers/parseHeaders.js:30-49 | One visit of the `forEach` callback stores the line's key and value. |
| ParseHeaders.ParseHeaders | lib/helpers/parseHeaders.js:21-53 | The loop over the lines gives the reference map; absent or empty input gives an empty map. |
| ParseHeaders.ParseHeadersSpec | lib/helpers/parseHeaders.js:21-53 | Every key of the result is non-empty and lower-case. |
| ParseHeaders.CollectMeaning | lib/helpers/parseHeaders.js:8-48 | A key is present exactly when some line has it. A single-value key keeps its first non-empty value; "set-cookie" lists all its values in order; any other key joins its values, from the first non-empty one on, with ", ". |
| ParseHeaders.CookieSnoc | lib/helpers/parseHeaders.js:42-44 | A further "set-cookie" line appends its value to the list. |
| ParseHeaders.JoinedSnoc | lib/helpers/parseHeaders.js:47 | A further line of a joined key appends ", " and its value. |
| ParseHeaders.FirstNonEmptySnoc | lib/helpers/parseHeaders.js:39-41 | A further line of a single-value key changes nothing once a truthy value is stored. |
| CombineUrls.CombineBlank | lib/helpers/combineURLs.js:17-19 | An empty or absent relative URL returns the base URL unchanged. |
| CombineUrls.CombineSeam | lib/helpers/combineURLs.js:17-19 | Any run of trailing "/" on the base and of leading "/" on the relative part becomes exactly one "/". |
| CombineUrls.CombineOneSlash | lib/helpers/combineURLs.js:18 | The result is the base without trailing "/", one "/", and the relative part without leading "/"; inner slashes are kept. |
| CombineUrls.CombineExampleSlashes | lib/helpers/combineURLs.js:38 | ("http://example.com/", "/api/data") gives "http://example.com/api/data". |
| CombineUrls.CombineExampleBare | lib/helpers/combineURLs.js:39 | ("http://example.com", "api/data") gives "http://example.com/api/data". |
| AbsoluteUrl.IsAbsoluteUrlMeaning | lib/helpers/isAbsoluteURL.js:18 | The scanner accepts exactly the strings that start with "//" or with a letter, scheme characters, and "://". |
| AbsoluteUrl.ProtocolRelative | lib/helpers/isAbsoluteURL.js:10 | A string starting with "//" is absolute. |
| AbsoluteUrl.SchemeUrl | lib/helpers/isAbsoluteURL.js:11-18 | A letter, scheme characters and "://" make a URL absolute. |
| AbsoluteUrl.AbsoluteExtend | lib/helpers/isAbsoluteURL.js:18 | Appending anything to an absolute URL keeps it absolute. |
| AbsoluteUrl.IgnoresCase | lib/helpers/isAbsoluteURL.js:18 | Lower-casing a URL does not change the verdict. |
| AbsoluteUrl.SchemeStartsWithLetter | lib/helpers/isAbsoluteURL.js:18 | A scheme starting with a digit is not absolute. |
| AbsoluteUrl.SchemeWithoutSlashes | lib/helpers/isAbsoluteURL.js:18 | "scheme:" without "//" is not absolute. |
| AbsoluteUrl.SingleSlash | lib/helpers/isAbsoluteURL.js:18 | A single leading "/" is not absolute. |
| AbsoluteUrl.UpperCaseScheme | lib/helpers/isAbsoluteURL.js:18 | An upper-case scheme is accepted. |
| NormalizeHeaderName.NormalizeHeaderName | lib/helpers/normalizeHeaderName.js:10-19 | The in-place loop leaves the headers as the reference walk over a snapshot of the keys does, and keeps them distinct. |
| NormalizeHeaderName.VisitKey | lib/helpers/normalizeHeaderName.js:14-17 | One visit moves a variant's value to the normalised name and deletes the variant, and leaves any other key alone. |
| NormalizeHeaderName.NormalizeIsNormalized | lib/helpers/normalizeHeaderName.js:12-18 | The walk equals a closed form: the last variant's value is put under the name and every other variant is filtered out. |
| NormalizeHeaderName.NormalizeDeletesVariants | lib/helpers/normalizeHeaderName.js:14-16 | Every key that differs from the name but equals it ignoring case is gone afterwards. |
| NormalizeHeaderName.NormalizeLastVariantWins | lib/helpers/normalizeHeaderName.js:12-15 | With several variants, the value of the one visited last is stored under the name. |
| NormalizeHeaderName.NormalizeKeepsOthers | lib/helpers/normalizeHeaderName.js:14 | Keys not equal to the name ignoring case keep their values and their relative order. |
| NormalizeHeaderName.NormalizeWithoutVariant | lib/helpers/normalizeHeaderName.js:14 | Without a variant the headers are unchanged. |
| NormalizeHeaderName.NormalizeIdempotent | lib/helpers/normalizeHeaderName.js:12-18 | Running it twice gives the same headers as running it once. |

## Left out

- Case mapping (`toLowerCase`, `toUpperCase`) is modelled for ASCII letters only; other characters are kept as they are.
- `encodeURIComponent` on a lone surrogate throws a `URIError` in JavaScript; here each `char` is a Unicode scalar value, so lone surrogates do not arise.
- Parameter values that are `Date` objects or other objects (`toISOString`, `JSON.stringify`) are not modelled: a field value is null/undefined, a string or an array of strings. `URLSearchParams` params are modelled by the text of their `toString()`, and a custom serializer is a function parameter whose internals are not modelled.
- ParseHeaders.ParseHeadersSpec: the result is a map, so the order in which the parsed object lists its keys (the order of each header name's first appearance) is not modelled. Its contents per key are.
- `parseHeaders` on a key that names an `Object.prototype` member (such as "constructor"), where `parsed[key]` is already truthy: keys are looked up in a plain map.
- `utils` (`forEach`, `trim`, `isFormData`, …), `mergeConfig`, `dispatchRequest`, `InterceptorManager` (`use`, `eject`, `forEach`), `settle`, `createError`, `buildFullPath`, `isURLSameOrigin` and `cookies.read` are not part of this model. They are parameters or inputs:
  - `mergeConfig` is a function argument;
  - the registries are sequences of interceptors in `forEach` order;
  - `settle` is the status decision `accepts`;
  - the XSRF header arrives already read.
- AxiosCore.NoDataAliasSends: stated only for a `mergeConfig` whose second argument's fields win. `mergeConfig` is not part of this model.
- AxiosCore.DataAliasSends: stated only for a `mergeConfig` whose second argument's fields win, for the same reason.
- The alias methods take their `url` as a string. Calling `axios.get()` with no URL, which passes `url: undefined` to `mergeConfig`, is not represented.
- `Options.timeout` is a natural number. An undefined `config.timeout`, which gives the message "timeout of undefinedms exceeded", is not represented.
- A fractional or negative `config.timeout` is not represented either; JavaScript would render it in the message as it stands (for example "timeout of 1.5ms exceeded").
- An executor that throws is not represented: an `Executor` is either not a function or a function whose synchronous calls of `cancel` are listed. In JavaScript such an exception propagates out of `new CancelToken`, after whatever `cancel` calls the executor already made.
- `Cancel.message` is an optional string. A truthy message that is not a string (a number, an object) is not represented; `toString` would concatenate its string form.
- `Headers.Put` appends a new key at the end. JavaScript objects list integer-like keys (such as "1") first, in ascending order, so a header object holding such keys would be visited in another order by the `setRequestHeader` loop (`XhrSetup.SendHeaders`) and by `normalizeHeaderName`; such keys are not modelled.
- The real XMLHttpRequest calls (`open`, `send`, `abort`, `setRequestHeader`, `timeout`, `withCredentials`), the `responseType` try/catch and the progress listeners are left out. They are browser I/O; the model records what would be passed to them.
- The response `headers` are taken to come from `getAllResponseHeaders`; the `null` when the request lacks that method is not modelled.
- XhrAdapter.CancelWhileLive: whether `request.abort()` runs `onabort` synchronously depends on the host. It is the parameter `abortFiresEvents`, and both outcomes are stated.
- The password's `unescape(encodeURIComponent(...))` step is modelled as UTF-8 encoding to code units (`XhrSetup.Utf8Binary`). `btoa` is modelled over code units, not over any particular host's implementation.
- Promise scheduling and microtasks are left out. `then` is a synchronous fold over outcomes, and a handler that throws returns a rejection.
- `config.url = arguments[0]` writes into the caller's config object. The model builds a new config value, so that aliasing is not captured.
- `lib/helpers/buildURL.js` lines 43-44 open the `if (!params)` block without closing it, so the file does not parse as shown. It is modelled as an early return.
- The worked examples in the comments of `lib/helpers/buildURL.js` show "%20" for a space, but the code produces "+" (`BuildUrl.SpaceBecomesPlus`). The model follows the code.
- `lib/helpers/cookies.js`, `lib/helpers/bind.js`, `lib/helpers/spread.js` and `lib/helpers/deprecatedMethod.js` are not part of this model. They are cookie I/O, `this` binding and console output.
