/**
  The request/response interceptors installed on the HTTP client and the
  refresh coordinator behind them. The module-level state of the source (the
  `refreshTokenInprogress` flag and the `failedRequests` queue), the
  `access_token` session-storage item, the encryption switch and the
  registered navigator are the fields of one `Interceptor` object. Every
  asynchronous step becomes an event method: a response error arrives, a
  refresh call settles.
 */
module AxiosInterceptor {
  import opened Wrappers
  import opened JsValue
  import opened EncryptionService
  import ApiService
  import Base64

  const AuthorizationKey: string := "Authorization"
  const LoginSuffix: string := "/login"
  const AuthExpired: int := 401
  const SessionExpired: int := 440

  predicate EndsWith(s: string, suffix: string) {
    |suffix| <= |s| && s[|s| - |suffix|..] == suffix
  }

  /** `config.url?.endsWith("/login")`; a config without a url is not a login call. */
  predicate IsLoginUrl(url: Option<string>) {
    url.Some? && EndsWith(url.value, LoginSuffix)
  }

  /** How `${sessionStorage.getItem("access_token")}` reads: a stored token as
      it is, a missing item as "null", which a stored "null" cannot be told
      apart from. */
  function TokenText(token: Option<string>): (r: string)
    ensures token.Some? ==> r == token.value
    ensures r == "null" <==> token == None || token == Some("null")
  {
    match token
    case None => "null"
    case Some(t) => t
  }

  /** The header value of section 2.1 of RFC 6750 for the stored token. */
  function BearerValue(token: Option<string>): (r: string)
    ensures |r| >= 7 && r[..7] == "Bearer " && r[7..] == TokenText(token)
  {
    "Bearer " + TokenText(token)
  }

  /** Two tokens give the same header exactly when they read the same. */
  lemma SameBearerIff(a: Option<string>, b: Option<string>)
    ensures BearerValue(a) == BearerValue(b) <==> TokenText(a) == TokenText(b)
  {
    if BearerValue(a) == BearerValue(b) {
      assert TokenText(a) == BearerValue(a)[7..];
    }
  }

  lemma EndsWithIff(s: string, suffix: string)
    ensures EndsWith(s, suffix) <==> exists p :: p + suffix == s
  {
    if EndsWith(s, suffix) {
      var p := s[..|s| - |suffix|];
      assert p + suffix == s;
    }
    if p :| p + suffix == s {
      assert s[|s| - |suffix|..] == suffix;
    }
  }

  /** A login call is one whose url is present and is some text followed by "/login". */
  lemma IsLoginUrlIff(url: Option<string>)
    ensures IsLoginUrl(url) <==> url.Some? && exists p :: p + LoginSuffix == url.value
  {
    if url.Some? {
      EndsWithIff(url.value, LoginSuffix);
    }
  }

  /** A truthy `data.data` that is an object reaches `atob` as
      "[object Object]", which is not Base64, so its decryption throws. */
  lemma ObjectPayloadRejected<V>(sz: Serializer<V>, fields: map<string, Value>)
    ensures Truthy(Obj(fields))
    ensures DecryptData(sz, ToJsString(Obj(fields))) == Failure(InvalidCharacterError)
  {
    Base64.DecodeRejectsForeignChar(ToJsString(Obj(fields)), 0);
  }

  /** The login call is exempt from the header and the envelope; the refresh call is not. */
  lemma EndpointExemptions(base: string)
    ensures IsLoginUrl(Some(ApiService.LoginUrl(base)))
    ensures !IsLoginUrl(Some(ApiService.RefreshTokenUrl(base)))
  {
    var login := ApiService.LoginUrl(base);
    assert login[|login| - 6..] == "/login";
    var refresh := ApiService.RefreshTokenUrl(base);
    assert refresh[|refresh| - 6..] == "-token";
    assert "-token"[0] != LoginSuffix[0];
  }

  /** An outgoing call, mutated in place by the interceptors. */
  class RequestConfig {
    var url: Option<string>
    var headers: map<string, string>
    var data: Value
    var retryingAfterTokenRefresh: bool

    constructor (url: Option<string>, headers: map<string, string>, data: Value)
      ensures this.url == url && this.headers == headers && this.data == data
      ensures !retryingAfterTokenRefresh
    {
      this.url := url;
      this.headers := headers;
      this.data := data;
      retryingAfterTokenRefresh := false;
    }
  }

  /** An inbound response and the config that produced it. */
  class Response {
    const config: RequestConfig
    var data: Value

    constructor (config: RequestConfig, data: Value)
      ensures this.config == config && this.data == data
    {
      this.config := config;
      this.data := data;
    }
  }

  /** A failed call as the response-error handler sees it; `tag` tells errors apart. */
  datatype AxiosError = AxiosError(status: Option<int>, tag: nat)

  /** A queued request: its completion handle is its id. */
  datatype Pending = Pending(id: nat, config: RequestConfig, error: AxiosError)

  /** How a queued request was completed. */
  datatype Completion = Resubmitted | RejectedWith(error: AxiosError)

  /** What the response-error handler hands back to the caller. */
  datatype Reply =
    | Rejected                  // Promise.reject() with no value
    | Queued(id: nat)           // a promise completed later through the queue
    | AwaitingRefresh(ticket: nat)  // suspended on refresh call number `ticket`

  function Configs(q: seq<Pending>): seq<RequestConfig> {
    seq(|q|, i requires 0 <= i < |q| => q[i].config)
  }

  predicate DistinctIds(q: seq<Pending>) {
    forall i, j :: 0 <= i < j < |q| ==> q[i].id != q[j].id
  }

  /** The ids of `q` are first, first + 1, ... */
  predicate ConsecutiveFrom(q: seq<Pending>, first: nat) {
    forall i :: 0 <= i < |q| ==> q[i].id == first + i
  }

  lemma ConsecutiveDistinct(q: seq<Pending>, first: nat)
    requires ConsecutiveFrom(q, first)
    ensures DistinctIds(q)
    ensures forall k :: k in IdSet(q) ==> first <= k < first + |q|
  {
  }

  function IdSet(q: seq<Pending>): set<nat> {
    set i | 0 <= i < |q| :: q[i].id
  }

  function CompletionOf(p: Pending, refreshed: bool): Completion {
    if refreshed then Resubmitted else RejectedWith(p.error)
  }

  /** What draining the queue records for each entry: resubmitted after a
      successful refresh, rejected with its own captured error after a failed one. */
  function Completions(q: seq<Pending>, refreshed: bool): map<nat, Completion>
    decreases |q|
  {
    if q == [] then map[]
    else Completions(q[..|q| - 1], refreshed)[q[|q| - 1].id := CompletionOf(q[|q| - 1], refreshed)]
  }

  /** Draining records a completion for the queued ids and no other. */
  lemma {:induction false} CompletionsKeys(q: seq<Pending>, refreshed: bool)
    ensures Completions(q, refreshed).Keys == IdSet(q)
    decreases |q|
  {
    if q != [] {
      var init := q[..|q| - 1];
      CompletionsKeys(init, refreshed);
      assert IdSet(q) == IdSet(init) + {q[|q| - 1].id} by {
        forall k | k in IdSet(q) ensures k in IdSet(init) + {q[|q| - 1].id} {
          var i :| 0 <= i < |q| && q[i].id == k;
          if i < |q| - 1 {
            assert init[i] == q[i];
          }
        }
        forall k | k in IdSet(init) ensures k in IdSet(q) {
          var i :| 0 <= i < |init| && init[i].id == k;
          assert q[i] == init[i];
        }
      }
    }
  }

  /** Each queued entry gets its own completion. */
  lemma {:induction false} CompletionsAt(q: seq<Pending>, refreshed: bool, i: nat)
    requires DistinctIds(q) && i < |q|
    ensures q[i].id in Completions(q, refreshed)
    ensures Completions(q, refreshed)[q[i].id] == CompletionOf(q[i], refreshed)
    decreases |q|
  {
    if i < |q| - 1 {
      var init := q[..|q| - 1];
      assert init[i] == q[i];
      CompletionsAt(init, refreshed, i);
    }
  }

  /** Draining completes exactly one entry per queued request. */
  lemma {:induction false} CompletionsCount(q: seq<Pending>, refreshed: bool)
    requires DistinctIds(q)
    ensures |Completions(q, refreshed)| == |q|
    decreases |q|
  {
    if q != [] {
      var init := q[..|q| - 1];
      CompletionsCount(init, refreshed);
      CompletionsKeys(init, refreshed);
      assert q[|q| - 1].id !in IdSet(init);
    }
  }

  lemma CompletionsSnoc(q: seq<Pending>, refreshed: bool, i: nat)
    requires i < |q|
    ensures Completions(q[..i + 1], refreshed)
         == Completions(q[..i], refreshed)[q[i].id := CompletionOf(q[i], refreshed)]
  {
    assert q[..i + 1][..i] == q[..i];
  }

  /** Settling the one refresh in flight leaves none. */
  lemma RemoveOnlyKey<K, V>(m: map<K, V>, k: K)
    requires forall a, b :: a in m && b in m ==> a == b
    requires k in m
    ensures m - {k} == map[]
  {
    assert forall a :: a !in m - {k};
  }

  lemma UnionUpdate<K, V>(a: map<K, V>, b: map<K, V>, k: K, v: V)
    ensures (a + b)[k := v] == a + b[k := v]
  {
  }

  /** `refreshToken()`: the token in the refresh response's `data.data.token`,
      as session storage will hold it, or None where the call throws (the
      request failed, or `data.data` is undefined or null). */
  function RefreshedToken(reply: Option<Value>): (r: Option<string>)
    ensures r.None? <==> reply.None? || Member(reply.value, "data") in {Undefined, Null}
    ensures reply.Some? && Member(Member(reply.value, "data"), "token").Str?
            ==> r == Some(Member(Member(reply.value, "data"), "token").s)
  {
    match reply
    case None => None
    case Some(body) =>
      var data := Member(body, "data");
      if data.Undefined? || data.Null? then None
      else Some(ToJsString(Member(data, "token")))
  }

  /** After a drain every recorded completion still belongs to an issued id. */
  lemma DrainedKeys(q: seq<Pending>, before: map<nat, Completion>, refreshed: bool, bound: nat)
    requires forall i :: 0 <= i < |q| ==> q[i].id < bound
    requires forall k :: k in before ==> k < bound
    ensures forall k :: k in before + Completions(q, refreshed) ==> k < bound
  {
    CompletionsKeys(q, refreshed);
    forall k | k in before + Completions(q, refreshed) ensures k < bound {
      if k !in before {
        assert k in IdSet(q);
      }
    }
  }

  /** Draining a queue of fresh consecutive ids completes each entry exactly
      once: one new record per entry, each with that entry's own outcome. */
  lemma DrainCompletesEachOnce(q: seq<Pending>, first: nat, before: map<nat, Completion>, refreshed: bool)
    requires ConsecutiveFrom(q, first)
    requires forall k :: k in before ==> k < first
    ensures |before + Completions(q, refreshed)| == |before| + |q|
    ensures forall i :: 0 <= i < |q| ==>
      && q[i].id !in before
      && q[i].id in before + Completions(q, refreshed)
      && (before + Completions(q, refreshed))[q[i].id] == CompletionOf(q[i], refreshed)
  {
    ConsecutiveDistinct(q, first);
    CompletionsKeys(q, refreshed);
    CompletionsCount(q, refreshed);
    var c := Completions(q, refreshed);
    assert before.Keys !! c.Keys;
    assert (before + c).Keys == before.Keys + c.Keys;
    assert |(before + c).Keys| == |before.Keys| + |c.Keys|;
    forall i | 0 <= i < |q| ensures (before + c)[q[i].id] == CompletionOf(q[i], refreshed) {
      CompletionsAt(q, refreshed, i);
    }
  }

  /** The `forEach` over the queue: record each entry's completion and, after
      a successful refresh, collect its config for resubmission, in queue order. */
  method Drain(q: seq<Pending>, before: map<nat, Completion>, refreshed: bool)
    returns (after: map<nat, Completion>, resubmits: seq<RequestConfig>)
    ensures after == before + Completions(q, refreshed)
    ensures resubmits == if refreshed then Configs(q) else []
  {
    after := before;
    resubmits := [];
    var i := 0;
    while i < |q|
      invariant 0 <= i <= |q|
      invariant after == before + Completions(q[..i], refreshed)
      invariant resubmits == if refreshed then Configs(q[..i]) else []
    {
      CompletionsSnoc(q, refreshed, i);
      UnionUpdate(before, Completions(q[..i], refreshed), q[i].id, CompletionOf(q[i], refreshed));
      after := after[q[i].id := CompletionOf(q[i], refreshed)];
      if refreshed {
        assert Configs(q[..i + 1]) == Configs(q[..i]) + [q[i].config];
        resubmits := resubmits + [q[i].config];
      }
      i := i + 1;
    }
    assert q[..|q|] == q;
  }

  /** The queue bookkeeping, on values: the queued ids are the last |queue|
      ids handed out, every recorded completion belongs to an earlier one,
      and every unsettled refresh call is one that was started. */
  ghost predicate Bookkept(queue: seq<Pending>, completions: map<nat, Completion>, nextId: nat,
                           awaiting: map<nat, RequestConfig>, refreshCalls: nat)
  {
    && |queue| <= nextId
    && ConsecutiveFrom(queue, nextId - |queue|)
    && (forall k :: k in completions ==> k < nextId - |queue|)
    && (forall k :: k in awaiting ==> k < refreshCalls)
  }

  lemma EnqueueKeepsBookkept(queue: seq<Pending>, completions: map<nat, Completion>, nextId: nat,
                             awaiting: map<nat, RequestConfig>, refreshCalls: nat, p: Pending)
    requires Bookkept(queue, completions, nextId, awaiting, refreshCalls) && p.id == nextId
    ensures Bookkept(queue + [p], completions, nextId + 1, awaiting, refreshCalls)
  {
  }

  lemma StartKeepsBookkept(queue: seq<Pending>, completions: map<nat, Completion>, nextId: nat,
                           awaiting: map<nat, RequestConfig>, refreshCalls: nat, config: RequestConfig)
    requires Bookkept(queue, completions, nextId, awaiting, refreshCalls)
    ensures Bookkept(queue, completions, nextId, awaiting[refreshCalls := config], refreshCalls + 1)
  {
  }

  lemma SettleKeepsBookkept(queue: seq<Pending>, completions: map<nat, Completion>, nextId: nat,
                            awaiting: map<nat, RequestConfig>, refreshCalls: nat, ticket: nat, refreshed: bool)
    requires Bookkept(queue, completions, nextId, awaiting, refreshCalls)
    ensures Bookkept([], completions + Completions(queue, refreshed), nextId, awaiting - {ticket}, refreshCalls)
  {
    DrainedKeys(queue, completions, refreshed, nextId);
  }

  /** At most one refresh call in flight, the flag says whether there is
      one, and nothing waits when there is none. */
  ghost predicate OneInFlight(refreshing: bool, queue: seq<Pending>, awaiting: map<nat, RequestConfig>)
  {
    && (forall k, k' :: k in awaiting && k' in awaiting ==> k == k')
    && (refreshing <==> awaiting != map[])
    && (!refreshing ==> queue == [])
  }

  lemma EnqueueKeepsOne(queue: seq<Pending>, awaiting: map<nat, RequestConfig>, p: Pending)
    requires OneInFlight(true, queue, awaiting)
    ensures OneInFlight(true, queue + [p], awaiting)
  {
  }

  lemma StartKeepsOne(queue: seq<Pending>, awaiting: map<nat, RequestConfig>, k: nat, config: RequestConfig)
    requires OneInFlight(false, queue, awaiting)
    ensures OneInFlight(true, queue, awaiting[k := config])
  {
    assert awaiting == map[];
    assert k in awaiting[k := config];
    assert awaiting[k := config].Keys == {k};
  }

  lemma SettleKeepsOne(refreshing: bool, queue: seq<Pending>, awaiting: map<nat, RequestConfig>, ticket: nat)
    requires OneInFlight(refreshing, queue, awaiting) && ticket in awaiting
    ensures OneInFlight(false, [], awaiting - {ticket})
  {
    RemoveOnlyKey(awaiting, ticket);
  }

  class Interceptor {
    const encryption: bool                 // VITE_ENCRYPTION === "true"
    const serializer: Serializer<Value>    // JSON.stringify / JSON.parse
    var token: Option<string>              // the "access_token" session-storage item
    var navigatorRegistered: bool          // globalRouter.navigate is set
    var refreshing: bool                   // refreshTokenInprogress
    var queue: seq<Pending>                // failedRequests
    var completions: map<nat, Completion>  // how each dequeued request was completed
    var nextId: nat                        // id of the next queued request
    var awaiting: map<nat, RequestConfig>  // unsettled refresh calls, with the request each replays
    var refreshCalls: nat                  // refresh calls started
    var redirects: nat                     // "Session Expired" notices shown
    var navigations: nat                   // forced navigations to "/"

    ghost function QueuedConfigs(): set<RequestConfig>
      reads this
    {
      set i | 0 <= i < |queue| :: queue[i].config
    }

    /** Queued ids are the last |queue| ids handed out, and every recorded
        completion belongs to an earlier one; every request waiting on the
        queue or on a refresh call is marked for retry. */
    ghost predicate Valid()
      reads this, QueuedConfigs(), awaiting.Values
    {
      Bookkept(queue, completions, nextId, awaiting, refreshCalls) && Marked()
    }

    /** Every request waiting on the queue or on a refresh call is marked
        for retry. */
    ghost predicate Marked()
      reads this, QueuedConfigs(), awaiting.Values
    {
      && (forall i :: 0 <= i < |queue| ==> queue[i].config.retryingAfterTokenRefresh)
      && (forall k :: k in awaiting ==> awaiting[k].retryingAfterTokenRefresh)
    }

    /** The single-flight discipline of the module state. */
    ghost predicate SingleFlight()
      reads this
    {
      OneInFlight(refreshing, queue, awaiting)
    }

    /** The module state as `setupInterceptorsTo` finds it. */
    constructor (encryption: bool, serializer: Serializer<Value>, token: Option<string>, navigatorRegistered: bool)
      ensures Valid() && SingleFlight()
      ensures this.encryption == encryption && this.serializer == serializer
      ensures this.token == token && this.navigatorRegistered == navigatorRegistered
      ensures !refreshing && queue == [] && completions == map[] && nextId == 0
      ensures awaiting == map[] && refreshCalls == 0 && redirects == 0 && navigations == 0
    {
      this.encryption := encryption;
      this.serializer := serializer;
      this.token := token;
      this.navigatorRegistered := navigatorRegistered;
      refreshing := false;
      queue := [];
      completions := map[];
      nextId := 0;
      awaiting := map[];
      refreshCalls := 0;
      redirects := 0;
      navigations := 0;
    }

    /** The router registers its navigate function. */
    method RegisterNavigator()
      requires Valid()
      modifies this`navigatorRegistered
      ensures Valid() && navigatorRegistered
    {
      navigatorRegistered := true;
    }

    /** The login form's write of `data.token` after a successful login,
        where `data` is `res.data?.data ?? {}`: `setItem` stores the string
        form, so a missing token is stored as "undefined". */
    method StoreLoginToken(body: Value)
      requires Valid()
      modifies this`token
      ensures Valid() && (old(SingleFlight()) ==> SingleFlight())
      ensures Member(Member(body, "data"), "token").Str? ==>
        token == Some(Member(Member(body, "data"), "token").s)
      ensures Member(Member(body, "data"), "token") == Undefined ==> token == Some("undefined")
    {
      var data := Member(body, "data");
      if data.Undefined? || data.Null? {
        data := Obj(map[]);
      }
      token := Some(ToJsString(Member(data, "token")));
    }

    /** `onRequest`: every non-login call gets the bearer header of the token
        stored now; with encryption on, a truthy body not marked for retry is
        wrapped once as `{ data: encryptData(body) }`. A throwing `btoa`
        rejects the call after the header was set. */
    method OnRequest(config: RequestConfig) returns (error: Option<CodecError>)
      requires Valid()
      modifies config
      ensures Valid()
      ensures config.url == old(config.url)
      ensures config.retryingAfterTokenRefresh == old(config.retryingAfterTokenRefresh)
      ensures IsLoginUrl(config.url) ==>
        config.headers == old(config.headers) && config.data == old(config.data) && error == None
      ensures !IsLoginUrl(config.url) ==>
        config.headers == old(config.headers)[AuthorizationKey := BearerValue(token)]
      ensures !IsLoginUrl(config.url) && !(encryption && Truthy(old(config.data)) && !config.retryingAfterTokenRefresh) ==>
        config.data == old(config.data) && error == None
      ensures !IsLoginUrl(config.url) && encryption && Truthy(old(config.data)) && !config.retryingAfterTokenRefresh ==>
        match EncryptData(serializer, old(config.data))
        case Success(text) => config.data == Envelope(text) && error == None
        case Failure(e) => config.data == old(config.data) && error == Some(e)
    {
      error := None;
      if !IsLoginUrl(config.url) {
        config.headers := config.headers[AuthorizationKey := BearerValue(token)];
        if encryption && Truthy(config.data) && !config.retryingAfterTokenRefresh {
          match EncryptData(serializer, config.data)
          case Success(text) =>
            config.data := Envelope(text);
          case Failure(e) =>
            error := Some(e);
        }
      }
    }

    /** `onResponse`: with encryption on and a non-login call, a truthy
        `data.data` is replaced by `decryptData` of it; a throwing decode
        rejects the call and leaves the body as it was. */
    method OnResponse(response: Response) returns (error: Option<CodecError>)
      modifies response
      ensures var inner := Member(old(response.data), "data");
        !(encryption && !IsLoginUrl(response.config.url) && Truthy(inner)) ==>
          response.data == old(response.data) && error == None
      ensures var inner := Member(old(response.data), "data");
        encryption && !IsLoginUrl(response.config.url) && Truthy(inner) ==>
          match DecryptData(serializer, ToJsString(inner))
          case Success(v) => old(response.data).Obj? && response.data == SetMember(old(response.data), "data", v) && error == None
          case Failure(e) => response.data == old(response.data) && error == Some(e)
    {
      error := None;
      if !IsLoginUrl(response.config.url) && encryption {
        var inner := Member(response.data, "data");
        if Truthy(inner) {
          match DecryptData(serializer, ToJsString(inner))
          case Success(v) =>
            response.data := SetMember(response.data, "data", v);
          case Failure(e) =>
            error := Some(e);
        }
      }
    }

    /** `redirect`: clear the flag, show the notice, navigate to "/" when a
        navigator is registered. The queue is left as it is. */
    method Redirect()
      requires Valid()
      modifies this`refreshing, this`redirects, this`navigations
      ensures Valid()
      ensures !refreshing && redirects == old(redirects) + 1
      ensures navigations == old(navigations) + if navigatorRegistered then 1 else 0
    {
      refreshing := false;
      redirects := redirects + 1;
      if navigatorRegistered {
        navigations := navigations + 1;
      }
    }

    /** The 401 branch of `onResponseError`: mark the request for retry, then
        queue it behind the refresh in flight, or start a refresh that will
        replay it. */
    method OnAuthExpired(error: AxiosError, config: RequestConfig) returns (reply: Reply)
      requires Valid()
      modifies this`refreshing, this`queue, this`nextId, this`awaiting, this`refreshCalls, config`retryingAfterTokenRefresh
      ensures Valid()
      ensures config.retryingAfterTokenRefresh && refreshing
      ensures old(refreshing) ==>
        && reply == Queued(old(nextId))
        && queue == old(queue) + [Pending(old(nextId), config, error)] && nextId == old(nextId) + 1
        && awaiting == old(awaiting) && refreshCalls == old(refreshCalls)
      ensures !old(refreshing) ==>
        && reply == AwaitingRefresh(old(refreshCalls))
        && refreshCalls == old(refreshCalls) + 1 && awaiting == old(awaiting)[old(refreshCalls) := config]
        && queue == old(queue) && nextId == old(nextId)
      ensures old(SingleFlight()) ==> SingleFlight()
    {
      config.retryingAfterTokenRefresh := true;
      if refreshing {
        var p := Pending(nextId, config, error);
        EnqueueKeepsBookkept(queue, completions, nextId, awaiting, refreshCalls, p);
        if SingleFlight() {
          EnqueueKeepsOne(queue, awaiting, p);
        }
        reply := Queued(nextId);
        queue := queue + [p];
        nextId := nextId + 1;
      } else {
        StartKeepsBookkept(queue, completions, nextId, awaiting, refreshCalls, config);
        if SingleFlight() {
          StartKeepsOne(queue, awaiting, refreshCalls, config);
        }
        refreshing := true;
        reply := AwaitingRefresh(refreshCalls);
        awaiting := awaiting[refreshCalls := config];
        refreshCalls := refreshCalls + 1;
      }
    }

    /** `onResponseError`: 440 redirects, 401 queues behind the refresh in
        flight or starts one, anything else is rejected with no value. */
    method OnResponseError(error: AxiosError, config: RequestConfig) returns (reply: Reply)
      requires Valid()
      modifies this, config
      ensures Valid()
      ensures config.url == old(config.url) && config.headers == old(config.headers) && config.data == old(config.data)
      ensures token == old(token) && completions == old(completions) && navigatorRegistered == old(navigatorRegistered)
      ensures error.status == Some(SessionExpired) ==>
        && reply == Rejected && !refreshing
        && redirects == old(redirects) + 1
        && navigations == old(navigations) + (if navigatorRegistered then 1 else 0)
        && queue == old(queue) && nextId == old(nextId)
        && awaiting == old(awaiting) && refreshCalls == old(refreshCalls)
        && config.retryingAfterTokenRefresh == old(config.retryingAfterTokenRefresh)
      ensures error.status == Some(AuthExpired) ==>
        && config.retryingAfterTokenRefresh && refreshing
        && redirects == old(redirects) && navigations == old(navigations)
      ensures error.status == Some(AuthExpired) && old(refreshing) ==>
        && reply == Queued(old(nextId))
        && queue == old(queue) + [Pending(old(nextId), config, error)] && nextId == old(nextId) + 1
        && awaiting == old(awaiting) && refreshCalls == old(refreshCalls)
      ensures error.status == Some(AuthExpired) && !old(refreshing) ==>
        && reply == AwaitingRefresh(old(refreshCalls))
        && refreshCalls == old(refreshCalls) + 1 && awaiting == old(awaiting)[old(refreshCalls) := config]
        && queue == old(queue) && nextId == old(nextId)
      ensures error.status != Some(SessionExpired) && error.status != Some(AuthExpired) ==>
        && reply == Rejected && refreshing == old(refreshing)
        && queue == old(queue) && nextId == old(nextId) && awaiting == old(awaiting)
        && refreshCalls == old(refreshCalls) && redirects == old(redirects) && navigations == old(navigations)
        && config.retryingAfterTokenRefresh == old(config.retryingAfterTokenRefresh)
      ensures old(SingleFlight()) && error.status != Some(SessionExpired) ==> SingleFlight()
    {
      if error.status == Some(SessionExpired) {
        Redirect();
        reply := Rejected;
      } else if error.status == Some(AuthExpired) {
        reply := OnAuthExpired(error, config);
      } else {
        reply := Rejected;
      }
    }

    /** The `forEach` over `failedRequests` and the reset that both outcomes
        of refresh call `ticket` share: complete every queued request in
        queue order, empty the queue, clear the flag and forget the call.
        After a success the queued configs come back for resubmission. */
    method Settle(ticket: nat, refreshed: bool) returns (sent: seq<RequestConfig>)
      requires Valid() && ticket in awaiting
      modifies this`completions, this`queue, this`refreshing, this`awaiting
      ensures Valid()
      ensures sent == if refreshed then Configs(old(queue)) else []
      ensures forall i :: 0 <= i < |sent| ==> sent[i].retryingAfterTokenRefresh
      ensures completions == old(completions) + Completions(old(queue), refreshed)
      ensures queue == [] && !refreshing && awaiting == old(awaiting) - {ticket}
      ensures old(SingleFlight()) ==> SingleFlight()
    {
      var done;
      done, sent := Drain(queue, completions, refreshed);
      SettleKeepsBookkept(queue, completions, nextId, awaiting, refreshCalls, ticket, refreshed);
      if SingleFlight() {
        SettleKeepsOne(refreshing, queue, awaiting, ticket);
      }
      assert forall i :: 0 <= i < |sent| ==> sent[i].retryingAfterTokenRefresh;
      completions := done;
      queue := [];
      refreshing := false;
      awaiting := awaiting - {ticket};
      assert Bookkept(queue, completions, nextId, awaiting, refreshCalls);
      assert Marked();
    }

    /** Refresh call `ticket` returned a token: store it, resubmit every queued
        request in queue order, empty the queue, clear the flag, and resubmit
        the request that started the refresh last. The returned configs are
        the resubmissions in order; each passes through `OnRequest` again. */
    method RefreshSucceeded(ticket: nat, newToken: string) returns (resubmits: seq<RequestConfig>)
      requires Valid() && ticket in awaiting
      modifies this`token, this`completions, this`queue, this`refreshing, this`awaiting
      ensures Valid()
      ensures token == Some(newToken)
      ensures resubmits == Configs(old(queue)) + [old(awaiting)[ticket]]
      ensures forall i :: 0 <= i < |resubmits| ==> resubmits[i].retryingAfterTokenRefresh
      ensures completions == old(completions) + Completions(old(queue), true)
      ensures queue == [] && !refreshing && awaiting == old(awaiting) - {ticket}
      ensures old(SingleFlight()) ==> SingleFlight()
    {
      var original := awaiting[ticket];
      assert original.retryingAfterTokenRefresh;
      token := Some(newToken);
      var sent := Settle(ticket, true);
      resubmits := sent + [original];
    }

    /** Refresh call `ticket` failed: reject every queued request with its own
        captured error, empty the queue, clear the flag, redirect, and reject
        the request that started the refresh. */
    method RefreshFailed(ticket: nat) returns (reply: Reply)
      requires Valid() && ticket in awaiting
      modifies this`completions, this`queue, this`refreshing, this`awaiting, this`redirects, this`navigations
      ensures Valid()
      ensures reply == Rejected
      ensures completions == old(completions) + Completions(old(queue), false)
      ensures queue == [] && !refreshing && awaiting == old(awaiting) - {ticket}
      ensures redirects == old(redirects) + 1
      ensures navigations == old(navigations) + if navigatorRegistered then 1 else 0
      ensures old(SingleFlight()) ==> SingleFlight()
    {
      var _ := Settle(ticket, false);
      Redirect();
      reply := Rejected;
    }

    /** Refresh call `ticket` came back with `reply` (None where the request
        itself failed): `refreshToken()` turns it into a token or throws, and
        the handler continues on the matching path. No resubmissions means
        the failure path was taken. */
    method RefreshReturned(ticket: nat, reply: Option<Value>) returns (resubmits: seq<RequestConfig>)
      requires Valid() && ticket in awaiting
      modifies this`token, this`completions, this`queue, this`refreshing, this`awaiting, this`redirects, this`navigations
      ensures Valid()
      ensures resubmits == [] <==> RefreshedToken(reply).None?
      ensures RefreshedToken(reply).Some? ==>
        && token == RefreshedToken(reply)
        && resubmits == Configs(old(queue)) + [old(awaiting)[ticket]]
        && completions == old(completions) + Completions(old(queue), true)
        && redirects == old(redirects) && navigations == old(navigations)
      ensures RefreshedToken(reply).None? ==>
        && token == old(token)
        && completions == old(completions) + Completions(old(queue), false)
        && redirects == old(redirects) + 1
        && navigations == old(navigations) + if navigatorRegistered then 1 else 0
      ensures queue == [] && !refreshing && awaiting == old(awaiting) - {ticket}
      ensures old(SingleFlight()) ==> SingleFlight()
    {
      match RefreshedToken(reply)
      case Some(t) =>
        resubmits := RefreshSucceeded(ticket, t);
      case None =>
        var _ := RefreshFailed(ticket);
        resubmits := [];
    }

    /** The header a config leaves `onRequest` with under the stored token. */
    ghost function Stamped(url: Option<string>, headers: map<string, string>): map<string, string>
      reads this
    {
      if IsLoginUrl(url) then headers else headers[AuthorizationKey := BearerValue(token)]
    }

    /** The resubmissions pass through `onRequest` again (`apiInstance(config)`
        and `axiosInstance(originalRequest)`): each gets the bearer header of
        the token now stored, and since each is marked for retry none of the
        bodies is wrapped a second time. A config listed twice ends the same. */
    method Resubmit(resubmits: seq<RequestConfig>)
      requires Valid()
      requires forall i :: 0 <= i < |resubmits| ==> resubmits[i].retryingAfterTokenRefresh
      modifies set i | 0 <= i < |resubmits| :: resubmits[i]
      ensures Valid()
      ensures forall i :: 0 <= i < |resubmits| ==>
        && resubmits[i].data == old(resubmits[i].data)
        && resubmits[i].url == old(resubmits[i].url)
        && resubmits[i].retryingAfterTokenRefresh
        && resubmits[i].headers == Stamped(old(resubmits[i].url), old(resubmits[i].headers))
    {
      var i := 0;
      while i < |resubmits|
        invariant 0 <= i <= |resubmits|
        invariant Valid()
        invariant forall j :: 0 <= j < |resubmits| ==>
          && resubmits[j].data == old(resubmits[j].data)
          && resubmits[j].url == old(resubmits[j].url)
          && resubmits[j].retryingAfterTokenRefresh
          && (resubmits[j].headers == old(resubmits[j].headers)
              || resubmits[j].headers == Stamped(old(resubmits[j].url), old(resubmits[j].headers)))
        invariant forall j :: 0 <= j < i ==>
          resubmits[j].headers == Stamped(old(resubmits[j].url), old(resubmits[j].headers))
      {
        var _ := OnRequest(resubmits[i]);
        i := i + 1;
      }
    }
  }
}
