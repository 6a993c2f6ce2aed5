# React axios interceptor: a verified model

This project models the front end's HTTP interceptor layer. That layer is
installed on the shared axios client and does three things:

- It stamps a bearer token on every outgoing call except login.
- When the encryption switch is on, it wraps request bodies as
  `{ data: btoa(JSON.stringify(body)) }` and unwraps response bodies with
  `JSON.parse(atob(...))`.
- It runs a single refresh coordinator for expired sessions. A 401 parks the
  failing call behind one token refresh and replays it afterwards. A 440
  forces the user back to the entry route.

The Dafny files model these pieces:

- `axios_interceptor.dfy`: the interceptor module as a class `Interceptor`.
  - Its fields are the module state:
    - `refreshing` is `refreshTokenInprogress`;
    - `queue` is `failedRequests`;
    - `token` is the `access_token` session-storage item;
    - `encryption` is the `VITE_ENCRYPTION` switch;
    - `navigatorRegistered` records whether a navigator is registered;
    - counters for refresh calls, notices and navigations.
  - Each asynchronous step is an event method. Three events come in: a
    request goes out, a response or error comes back, a refresh call
    settles.
  - Request configs and responses are classes, mutated in place as in the
    source.
  - A queued request's promise is an id. Its outcome (resubmitted, or
    rejected with its own captured error) is recorded in `completions`.
- `encryption_service.dfy`: `encryptData` and `decryptData` as `Btoa` and
  `Atob` around an abstract JSON serialiser.
- `base64.dfy`: Base64 from section 4 of RFC 4648 over byte sequences.
  - Encoding is with padding.
  - Decoding follows the forgiving-base64 decode algorithm of the WHATWG
    Infra standard, which `atob` uses.
- `js_value.dfy`: the JavaScript value semantics the interceptors rely on:
  truthiness, `v?.key`, the `{ data }` envelope and `String(v)`.
- `api_service.dfy`: the login and refresh endpoint shapes.
- `scenarios.dfy`: two short event traces. One shows the session-expiry
  quirk. The other shows a refresh followed by replay.

The main invariants are these:

- `Valid()` holds in every reachable state. Queued ids are consecutive and
  fresh. Every recorded completion belongs to an id already released. Every
  request waiting on the queue or on a refresh call is marked for retry.
- `SingleFlight()`: at most one refresh call is unsettled, the flag says
  whether there is one, and the queue is empty when there is none. Every
  event preserves it except a 440. `redirect` clears the flag but not the
  queue (axios.interceptor.ts:75), so a later 401 starts a second refresh
  while the first is still out. `Scenarios.SessionExpiryDuringRefresh`
  proves that this trace breaks the discipline.

Two behaviours of the code are easy to misread, and the model follows the
code in both:

- `onResponseError` is documented (axios.interceptor.ts:159) as returning a
  promise that resolves to an AxiosError. The call it handles directly is
  never rejected with its error. A 440, and any status other than 401 and
  440, falls through to `Promise.reject()` at line 199. A failed refresh
  rejects with `Promise.reject()` at line 195. Both reject with no value, so
  the model's `Rejected` reply carries no error. The queued calls are
  different: on a failed refresh each is rejected with its own captured
  error (line 191), which the model records as `RejectedWith(error)`.
- A 440 only calls `redirect` (line 164). `redirect` clears the flag
  (line 75) but does not touch `failedRequests`. Queued requests therefore
  stay queued until some later refresh settles.

## Model

| member | source | states |
|---|---|---|
| AxiosInterceptor.TokenText | src/interceptors/axios.interceptor.ts:103 | the template literal shows a stored token as it is; it shows "null" exactly when no token is stored or the stored token is the text "null" |
| AxiosInterceptor.SameBearerIff | src/interceptors/axios.interceptor.ts:103 | two stored tokens give the same `Bearer` header exactly when they read the same, so a missing token and a stored "null" send the same header |
| AxiosInterceptor.IsLoginUrlIff | src/interceptors/axios.interceptor.ts:102 | a call counts as login (here and at line 142) exactly when its url is present and is some text followed by "/login"; a call without a url is not exempt |
| AxiosInterceptor.ObjectPayloadRejected | src/interceptors/axios.interceptor.ts:137-138 | a `data.data` that is an object is truthy, so it is decrypted; it reaches `atob` as "[object Object]", and decryption throws InvalidCharacterError |
| AxiosInterceptor.EndpointExemptions | src/services/api.service.ts:5-29 | the login URL counts as a login call for any API base; the refresh URL does not, so the refresh call itself gets the bearer header |
| AxiosInterceptor.RefreshedToken | src/interceptors/axios.interceptor.ts:51-58 | `refreshToken()` throws exactly when the call failed or `res.data?.data` is undefined or null; otherwise it yields `data.token`, and a string token is stored verbatim |
| AxiosInterceptor.Drain | src/interceptors/axios.interceptor.ts:183-192 | the `forEach` over the queue adds one completion per entry to the record; after a success it hands back the queued configs in queue order for resubmission, after a failure none |
| AxiosInterceptor.DrainCompletesEachOnce | src/interceptors/axios.interceptor.ts:183-192 | draining adds exactly as many records as there are queued entries; each entry's id was free before, and each id then holds that entry's own outcome (resubmitted, or rejected with its own captured error) |
| AxiosInterceptor.Interceptor.constructor | src/interceptors/axios.interceptor.ts:36-43 | the module starts idle: flag false, empty queue, no refresh call, no notice; the state is valid and single-flight |
| AxiosInterceptor.Interceptor.StoreLoginToken | src/components/Login.tsx:14-15 | after a login the stored token is the string `data.token` of `res.data?.data ?? {}`; a missing token is stored as the text "undefined"; validity and single-flight are kept |
| AxiosInterceptor.Interceptor.RegisterNavigator | src/App.tsx:15-16 | the router registers its navigate function; nothing else changes |
| AxiosInterceptor.Interceptor.OnRequest | src/interceptors/axios.interceptor.ts:94-109 | a login call keeps its headers and body. Any other call, including one without a url, gets `Authorization` set to the bearer value of the token stored now. The body becomes `{data: encryptData(body)}` only when encryption is on, the body is truthy and the call is not marked for retry; otherwise it is untouched. A `btoa` failure rejects the call and keeps the body |
| AxiosInterceptor.Interceptor.OnResponse | src/interceptors/axios.interceptor.ts:133-146 | `data.data` is replaced by `decryptData(String(data.data))` only when encryption is on, the call is not login and `data?.data` is truthy; otherwise the response is unchanged. A decode failure (`atob` or `JSON.parse`) rejects with that error and keeps the body |
| AxiosInterceptor.Interceptor.Redirect | src/interceptors/axios.interceptor.ts:74-80 | clears the flag, shows one notice, and navigates once exactly when a navigator is registered; the queue is left as it is |
| AxiosInterceptor.Interceptor.OnAuthExpired | src/interceptors/axios.interceptor.ts:165-181 | the failing config is marked for retry first. With a refresh in flight it is appended to the end of the queue under the next id, and no refresh starts. Otherwise the flag is set and exactly one refresh call starts, carrying this config. Validity and single-flight are kept |
| AxiosInterceptor.Interceptor.OnResponseError | src/interceptors/axios.interceptor.ts:161-200 | 440 redirects and rejects, leaving the queue, the refresh calls and the config untouched. 401 behaves as its branch above. Any other status, or none, rejects and changes nothing. Single-flight survives every status but 440 |
| AxiosInterceptor.Interceptor.Settle | src/interceptors/axios.interceptor.ts:183-193 | both outcomes complete every queued request once, empty the queue, clear the flag and retire that refresh call; the released configs are all marked for retry |
| AxiosInterceptor.Interceptor.RefreshSucceeded | src/interceptors/axios.interceptor.ts:181-189 | stores the new token; the resubmissions are the queued configs in queue order and then the original request (line 197), all marked for retry; every queued entry is recorded as resubmitted; the queue is empty and the flag false |
| AxiosInterceptor.Interceptor.RefreshFailed | src/interceptors/axios.interceptor.ts:190-195 | every queued entry is rejected with its own captured error, exactly once; the queue is empty; the flag is false; one notice fires; the original call is rejected |
| AxiosInterceptor.Interceptor.RefreshReturned | src/interceptors/axios.interceptor.ts:167-196 | a refresh reply takes the success path exactly when `refreshToken()` yields a token, and then stores it; otherwise it takes the failure path; no resubmission happens exactly on failure |
| AxiosInterceptor.Interceptor.Resubmit | src/interceptors/axios.interceptor.ts:183-187 | every resubmitted config passes `onRequest` again: non-login ones get the bearer header of the current token, and no body changes, so a replay is never wrapped twice, even for a config listed twice |
| Scenarios.SessionExpiryDuringRefresh | src/interceptors/axios.interceptor.ts:163-180 | a 440 during a refresh followed by a 401 starts a second refresh call while the first is unsettled and the queue stays stranded; single-flight is lost |
| Scenarios.RefreshAndReplay | src/interceptors/axios.interceptor.ts:181-197 | after a successful refresh and the resubmissions, each released request keeps its body and carries "Bearer " plus the new token |
| EncryptionService.Btoa | src/services/encryption.service.ts:5 | `btoa` succeeds exactly on binary strings (code points at most 0xFF), and then yields 4 * ceil(n / 3) characters; otherwise it throws InvalidCharacterError |
| EncryptionService.Atob | src/services/encryption.service.ts:9 | `atob` throws InvalidCharacterError exactly on text that is not well-formed Base64, and otherwise yields a binary string |
| EncryptionService.EncryptData | src/services/encryption.service.ts:4-6 | `encryptData` succeeds exactly when the JSON text is a binary string, and then yields 4 * ceil(n / 3) characters for n characters of JSON; otherwise it throws InvalidCharacterError |
| EncryptionService.DecryptData | src/services/encryption.service.ts:8-10 | `decryptData` throws InvalidCharacterError exactly on text that is not well-formed Base64, and SyntaxError exactly when the decoded text does not parse; otherwise it yields the parsed value |
| EncryptionService.AtobBtoa | src/services/encryption.service.ts:5-9 | `atob(btoa(s)) == s` for every binary string |
| EncryptionService.DecryptEncrypt | src/services/encryption.service.ts:4-10 | `decryptData(encryptData(x)) == x` for every value x that `JSON.parse` gets back from `JSON.stringify(x)` and whose JSON text is a binary string |
| EncryptionService.EncryptShape | src/services/encryption.service.ts:5 | an encrypted body of JSON length n has 4 * ceil(n / 3) characters: alphabet characters, then `=` only at the end and at most twice |
| Base64.CharSextet | src/services/encryption.service.ts:9 | the decoding table inverts the encoding table on every alphabet character |
| Base64.SextetRoundTrip | src/services/encryption.service.ts:5-9 | the encoding table inverts the decoding table on every 6-bit value |
| Base64.EncodeGroup | src/services/encryption.service.ts:5 | each 3-byte group becomes exactly 4 alphabet characters |
| Base64.Unpadded | src/services/encryption.service.ts:5 | the unpadded encoding has 4 characters per whole group plus 2 or 3 for a partial one, all from the alphabet |
| Base64.Encode | src/services/encryption.service.ts:5 | the encoding of n bytes has 4 * ceil(n / 3) characters; all are from the alphabet except the last PadCount(n), which are `=` |
| Base64.EncodedLengths | src/services/encryption.service.ts:5 | the padding fills the unpadded encoding to whole groups of four |
| Base64.EncodeOneGroup | src/services/encryption.service.ts:5 | three bytes encode to their one group |
| Base64.UnpaddedAppend | src/services/encryption.service.ts:5 | unpadded encoding distributes over concatenation after whole groups |
| Base64.EncodeAppend | src/services/encryption.service.ts:5 | encoding a concatenation whose first part is whole groups is the concatenation of the encodings |
| Base64.StripWhitespace | src/services/encryption.service.ts:9 | step 1 of `atob` leaves no ASCII whitespace and never lengthens the text |
| Base64.StripWhitespaceNoop | src/services/encryption.service.ts:9 | text without whitespace passes step 1 unchanged |
| Base64.StripWhitespaceKeeps | src/services/encryption.service.ts:9 | every non-whitespace character survives step 1 |
| Base64.StripPadding | src/services/encryption.service.ts:9 | step 2 of `atob` removes a suffix of at most two `=` only from a length that is a multiple of four; on such a length it leaves no `=` at the end unless it removed two |
| Base64.StripPaddingOfEncode | src/services/encryption.service.ts:9 | step 2 of `atob` removes exactly the padding that encoding added |
| Base64.DecodeBody | src/services/encryption.service.ts:9 | a validated body of n characters decodes to 3 bytes per group of four plus n mod 4 - 1 for a partial group |
| Base64.Decode | src/services/encryption.service.ts:9 | `atob` succeeds exactly on well-formed text: after whitespace, an alphabet-only body whose length is not 4k+1, followed by at most two `=`, with padding only on a length that is a multiple of four. It then yields as many bytes as the body stands for |
| Base64.DecodeEncodeGroup | src/services/encryption.service.ts:5-9 | decoding one encoded group gives back its three bytes |
| Base64.DecodeUnpadded | src/services/encryption.service.ts:5-9 | decoding the unpadded encoding gives back the bytes |
| Base64.RoundTrip | src/services/encryption.service.ts:5-9 | `atob` inverts `btoa` on every byte sequence |
| Base64.DecodeAcceptsMissingPadding | src/services/encryption.service.ts:9 | `atob` also accepts an encoding whose padding was left off, and decodes it to the same bytes |
| Base64.DecodeRejectsForeignChar | src/services/encryption.service.ts:9 | a character outside the alphabet, other than whitespace and final padding, makes `atob` throw |
| Base64.DecodeRejectsInnerPadding | src/services/encryption.service.ts:9 | in text without whitespace, an `=` that is not among the last two characters makes `atob` throw |
| Base64.DecodeRejectsBadLength | src/services/encryption.service.ts:9 | text whose whitespace-free length is 4k+1 makes `atob` throw |
| JsValue.SetMember | src/interceptors/axios.interceptor.ts:138 | assigning `v.key` changes that property and no other |
| JsValue.Envelope | src/interceptors/axios.interceptor.ts:98 | the envelope is a truthy object whose `data` is the encoded text |
| JsValue.Truthy | src/interceptors/axios.interceptor.ts:97 | a value (tested here and at line 137) is falsy exactly when it is undefined, null, false, 0 or the empty string; every object is truthy (ToBoolean, section 7.1.2 of ECMA-262) |

## Left out

- `onRequestError` (axios.interceptor.ts:119-121) only forwards the rejection, so it has no state to model.
- `setupInterceptorsTo` (lines 211-215) only installs the handlers. The handlers are the methods of `Interceptor`.
- Promises and the event loop: a queued request's promise is its id with a recorded outcome. A suspended refresh is a ticket in `awaiting`. The network round trip of a replay and its result are not modelled.
- A replay that fails with 401 again enters the 401 handler again, with no retry cap. Each such arrival is another `OnResponseError` event; unbounded re-entry is not modelled as one operation.
- The refresh call goes through the same client. If it fails with 401 while the flag is set, the source queues it behind itself and never settles. The model treats every refresh reply as settling its ticket.
- `error.config` is taken to be present on every response error. The source dereferences it unguarded at line 166.
- `toast.error` is counted as a notice (`redirects`); its message, id and duration are not modelled. `globalRouter.navigate` is a registered/unregistered flag with a navigation counter.
- `sessionStorage` is the `token` field. `import.meta.env.VITE_ENCRYPTION` is the `encryption` constant. `VITE_API_URL` is a string parameter.
- `JSON.stringify` and `JSON.parse` are an abstract serialiser. That `JSON.parse` gets `x` back from `JSON.stringify(x)` is a hypothesis of `DecryptEncrypt` for the one value x, not a property proved about JSON; values such as `undefined` that JSON does not carry are exactly those it excludes.
- JavaScript values are integers, strings, booleans, null, undefined and string-keyed objects. Floating-point numbers, NaN and arrays are not represented.
- JsValue.ToJsString: the conversion of numbers and objects follows `String(v)` only for integers and plain objects; its contract states only the string case, which is the one `atob` sees from an encrypted body; the object case is stated by `ObjectPayloadRejected`.
- Code points above 0xFFFF are single characters here, as Dafny strings are sequences of code points rather than UTF-16 units. `btoa` rejects both equally.
- The React pages, routing and bootstrap code are not part of this model; of the login form only its write of the token (`StoreLoginToken`) is, not its `user_full_name` write, its navigation or its failure toast. Of `api.service.ts`, only the login and refresh URL shapes are used.
