/** `Axios`: the request pipeline. `request` normalises its arguments and the
    method, lays the interceptors and `dispatchRequest` out in one flat array
    of (fulfilled, rejected) slots, and drains that array two slots at a
    time into a chain of `then` calls on a promise that starts out fulfilled
    with the merged config.

    Promises are values here: a `Promise` records the chain of `then` calls
    built on it, and `Settle` gives the outcome that chain reaches once every
    handler has run. Handlers are not functions of the model but names,
    interpreted by an `Env`; `mergeConfig` is a parameter. */
module AxiosCore {
  import opened Wrappers
  import opened Strings
  import BuildUrl

  // ---------------------------------------------------------------------
  // Configs, values, outcomes

  /** The part of a request config this file reads or writes. */
  datatype Config = Config(
    url: Option<string>,
    httpMethod: Option<string>,
    data: Option<Value>,
    params: Option<BuildUrl.Params>,
    paramsSerializer: Option<BuildUrl.Params -> string>)

  /** What travels along the chain: a config on the request side, anything a
      handler produces (a response, an error) otherwise. */
  datatype Value = ConfigValue(config: Config) | Opaque(id: nat)

  /** `{}`. */
  const EmptyConfig := Config(None, None, None, None, None)

  /** How a promise settles; a handler that throws yields `Rejected`. */
  datatype Outcome = Fulfilled(value: Value) | Rejected(reason: Value)

  /** A slot of the chain holds `dispatchRequest` or a user handler. */
  datatype Handler = DispatchRequest | UserHandler(id: nat)

  /** One registered interceptor: its two handlers, either of which may be
      absent (`None` stands for anything that is not a function). */
  datatype Interceptor = Interceptor(fulfilled: Option<Handler>, rejected: Option<Handler>)

  /** What the handlers do: the user's by name, and `dispatchRequest`. */
  datatype Env = Env(user: (nat, Value) -> Outcome, dispatch: Value -> Outcome)

  function Call(env: Env, h: Handler, v: Value): Outcome {
    match h
    case DispatchRequest => env.dispatch(v)
    case UserHandler(id) => env.user(id, v)
  }

  /** `then(onFulfilled, onRejected)` on a settled promise: the handler for
      the outcome's side runs if present; otherwise the outcome passes on. */
  function Then(env: Env, o: Outcome, onFulfilled: Option<Handler>, onRejected: Option<Handler>): Outcome {
    match o
    case Fulfilled(v) => if onFulfilled.Some? then Call(env, onFulfilled.value, v) else o
    case Rejected(e) => if onRejected.Some? then Call(env, onRejected.value, e) else o
  }

  /** A promise: resolved with a value, or a `then` attached to an earlier
      promise. */
  datatype Promise =
    | Resolved(value: Value)
    | Chained(prior: Promise, onFulfilled: Option<Handler>, onRejected: Option<Handler>)

  /** The outcome a promise reaches. */
  function Settle(env: Env, p: Promise): Outcome {
    match p
    case Resolved(v) => Fulfilled(v)
    case Chained(prior, f, r) => Then(env, Settle(env, prior), f, r)
  }

  /** The handler pairs attached to a promise, first attached first. */
  function Links(p: Promise): seq<(Option<Handler>, Option<Handler>)> {
    match p
    case Resolved(_) => []
    case Chained(prior, f, r) => Links(prior) + [(f, r)]
  }

  /** Running an outcome through handler pairs in order. */
  function Run(env: Env, o: Outcome, pairs: seq<(Option<Handler>, Option<Handler>)>): Outcome
    decreases |pairs|
  {
    if pairs == [] then o else Run(env, Then(env, o, pairs[0].0, pairs[0].1), pairs[1..])
  }

  // ---------------------------------------------------------------------
  // The chain array

  /** `shift()` on an array: the first element, `undefined` when empty. */
  function Front(s: seq<Option<Handler>>): Option<Handler> {
    if s == [] then None else s[0]
  }

  /** The array after `shift()`. */
  function Shifted(s: seq<Option<Handler>>): (r: seq<Option<Handler>>)
    ensures s == [] ==> r == []
    ensures s != [] ==> |r| == |s| - 1
  {
    if s == [] then [] else s[1..]
  }

  /** The pairs `promise.then(chain.shift(), chain.shift())` takes, round
      after round, until the array is empty. */
  function Pairs(chain: seq<Option<Handler>>): (r: seq<(Option<Handler>, Option<Handler>)>)
    decreases |chain|
  {
    if chain == [] then []
    else if |chain| == 1 then [(chain[0], None)]
    else [(chain[0], chain[1])] + Pairs(chain[2..])
  }

  /** The promise the draining loop leaves behind, starting from `p`. */
  function Attach(p: Promise, chain: seq<Option<Handler>>): Promise
    decreases |chain|
  {
    if chain == [] then p
    else if |chain| == 1 then Chained(p, chain[0], None)
    else Attach(Chained(p, chain[0], chain[1]), chain[2..])
  }

  function Slots(ic: Interceptor): seq<Option<Handler>> {
    [ic.fulfilled, ic.rejected]
  }

  function AsPair(ic: Interceptor): (Option<Handler>, Option<Handler>) {
    (ic.fulfilled, ic.rejected)
  }

  /** The slots the request interceptors contribute: each one, in the order
      the registry visits them, is put in front of what is already there. */
  function RequestSlots(reqs: seq<Interceptor>): (r: seq<Option<Handler>>)
    ensures |r| == 2 * |reqs|
    decreases |reqs|
  {
    if reqs == [] then [] else Slots(reqs[|reqs| - 1]) + RequestSlots(reqs[..|reqs| - 1])
  }

  /** The slots the response interceptors contribute: each one is put at
      the end. */
  function ResponseSlots(resps: seq<Interceptor>): (r: seq<Option<Handler>>)
    ensures |r| == 2 * |resps|
    decreases |resps|
  {
    if resps == [] then [] else ResponseSlots(resps[..|resps| - 1]) + Slots(resps[|resps| - 1])
  }

  /** One more request interceptor visited puts its slots in front. */
  lemma RequestSlotsStep(reqs: seq<Interceptor>, i: int)
    requires 0 <= i < |reqs|
    ensures RequestSlots(reqs[..i + 1]) == [reqs[i].fulfilled, reqs[i].rejected] + RequestSlots(reqs[..i])
  {
    assert reqs[..i + 1][..i] == reqs[..i];
  }

  /** One more response interceptor visited puts its slots at the end. */
  lemma ResponseSlotsStep(resps: seq<Interceptor>, j: int)
    requires 0 <= j < |resps|
    ensures ResponseSlots(resps[..j + 1]) == ResponseSlots(resps[..j]) + [resps[j].fulfilled, resps[j].rejected]
  {
    assert resps[..j + 1][..j] == resps[..j];
  }

  /** The array once both registries have been visited. */
  function ChainSpec(reqs: seq<Interceptor>, resps: seq<Interceptor>): (r: seq<Option<Handler>>)
    ensures |r| == 2 * (|reqs| + |resps| + 1)
  {
    RequestSlots(reqs) + [Some(DispatchRequest), None] + ResponseSlots(resps)
  }

  /** The order the request interceptors run in: the last visited first. */
  function RequestOrder(reqs: seq<Interceptor>): seq<(Option<Handler>, Option<Handler>)> {
    seq(|reqs|, k requires 0 <= k < |reqs| => AsPair(reqs[|reqs| - 1 - k]))
  }

  /** The order the response interceptors run in: as visited. */
  function ResponseOrder(resps: seq<Interceptor>): seq<(Option<Handler>, Option<Handler>)> {
    seq(|resps|, k requires 0 <= k < |resps| => AsPair(resps[k]))
  }

  /** The array `request` works on. Entries are taken from the front by
      `Shift`, added by `Unshift` and `Push`. */
  class Chain {
    var slots: seq<Option<Handler>>

    constructor (init: seq<Option<Handler>>)
      ensures slots == init
    {
      slots := init;
    }

    method Unshift(f: Option<Handler>, r: Option<Handler>)
      modifies this
      ensures slots == [f, r] + old(slots)
    {
      slots := [f, r] + slots;
    }

    method Push(f: Option<Handler>, r: Option<Handler>)
      modifies this
      ensures slots == old(slots) + [f, r]
    {
      slots := slots + [f, r];
    }

    method Shift() returns (x: Option<Handler>)
      modifies this
      ensures x == Front(old(slots)) && slots == Shifted(old(slots))
    {
      if slots == [] {
        return None;
      }
      x := slots[0];
      slots := slots[1..];
    }
  }

  // ---------------------------------------------------------------------
  // Arguments and the method

  /** `request(config)` or `request(url, config)`; `None` stands for a
      missing or falsy config. */
  datatype RequestArgs = ConfigArg(config: Option<Config>) | UrlArg(url: string, config: Option<Config>)

  /** The config `request` passes to `mergeConfig`: with a string first
      argument, the second argument (or `{}`) with `url` set to the string. */
  function ArgumentConfig(args: RequestArgs): (c: Config)
    ensures args.UrlArg? ==> c.url == Some(args.url)
    ensures args.UrlArg? ==>
      var given := args.config.GetOr(EmptyConfig);
      c.httpMethod == given.httpMethod && c.data == given.data && c.params == given.params
      && c.paramsSerializer == given.paramsSerializer
    ensures args.ConfigArg? && args.config.None? ==> c == EmptyConfig
    ensures args.ConfigArg? && args.config.Some? ==> c == args.config.value
  {
    match args
    case ConfigArg(config) => config.GetOr(EmptyConfig)
    case UrlArg(url, config) => config.GetOr(EmptyConfig).(url := Some(url))
  }

  predicate Truthy(s: Option<string>) {
    s.Some? && s.value != ""
  }

  /** The method `request` settles on. */
  function NormalizedMethod(merged: Config, defaults: Config): string {
    if Truthy(merged.httpMethod) then ToLower(merged.httpMethod.value)
    else if Truthy(defaults.httpMethod) then ToLower(defaults.httpMethod.value)
    else "get"
  }

  /** The config that enters the chain. */
  function RequestConfig(args: RequestArgs, defaults: Config, merge: (Config, Config) -> Config): Config {
    var merged := merge(defaults, ArgumentConfig(args));
    merged.(httpMethod := Some(NormalizedMethod(merged, defaults)))
  }

  // ---------------------------------------------------------------------
  // `getUri` and the aliases

  /** The `TypeError` of calling `replace` on `undefined`. */
  datatype TypeError = ReplaceOnUndefined

  /** `s.replace(/^\?/, "")`. */
  function StripLeadingQuestion(s: string): (r: string)
    ensures |s| > 0 && s[0] == '?' ==> r == s[1..]
    ensures (|s| == 0 || s[0] != '?') ==> r == s
  {
    if |s| > 0 && s[0] == '?' then s[1..] else s
  }

  /** `getUri(config)`. `buildURL` hands back an undefined `url` or fails
      on it, so a merged config without `url` ends in a `TypeError`. */
  function GetUri(defaults: Config, config: Config, merge: (Config, Config) -> Config): (r: Result<string, TypeError>)
    ensures r.Err? <==> merge(defaults, config).url.None?
  {
    var merged := merge(defaults, config);
    if merged.url.None? then Err(ReplaceOnUndefined)
    else Ok(StripLeadingQuestion(BuildUrl.BuildUrlSpec(merged.url.value, merged.params, merged.paramsSerializer)))
  }

  /** The aliases that take no body, and those that do. */
  datatype NoDataVerb = Delete | Get | Head | Options
  datatype DataVerb = Post | Put | Patch

  function NoDataName(v: NoDataVerb): string {
    match v
    case Delete => "delete"
    case Get => "get"
    case Head => "head"
    case Options => "options"
  }

  function DataName(v: DataVerb): string {
    match v
    case Post => "post"
    case Put => "put"
    case Patch => "patch"
  }

  /** `get(url, config)` and its kind: the config handed to `request`. The
      body is the config's own `data`. */
  function NoDataAliasConfig(verb: NoDataVerb, url: string, config: Option<Config>,
                             merge: (Config, Config) -> Config): Config
  {
    var base := config.GetOr(EmptyConfig);
    merge(base, EmptyConfig.(httpMethod := Some(NoDataName(verb)), url := Some(url), data := base.data))
  }

  /** `post(url, data, config)` and its kind. */
  function DataAliasConfig(verb: DataVerb, url: string, data: Option<Value>, config: Option<Config>,
                           merge: (Config, Config) -> Config): Config
  {
    merge(config.GetOr(EmptyConfig), EmptyConfig.(httpMethod := Some(DataName(verb)), url := Some(url), data := data))
  }

  /** `mergeConfig` takes `url`, `method` and `data` from its second
      argument whenever that one sets them. */
  ghost predicate SecondWins(merge: (Config, Config) -> Config) {
    forall a: Config, b: Config ::
      (b.url.Some? ==> merge(a, b).url == b.url)
      && (b.httpMethod.Some? ==> merge(a, b).httpMethod == b.httpMethod)
      && (b.data.Some? ==> merge(a, b).data == b.data)
  }

  /** `while (chain.length) promise = promise.then(chain.shift(), chain.shift())`. */
  method Drain(chain: Chain, start: Promise) returns (promise: Promise)
    modifies chain
    ensures chain.slots == []
    ensures promise == Attach(start, old(chain.slots))
  {
    promise := start;
    while chain.slots != []
      invariant Attach(promise, chain.slots) == Attach(start, old(chain.slots))
      decreases |chain.slots|
    {
      var f := chain.Shift();
      var r := chain.Shift();
      promise := Chained(promise, f, r);
    }
  }

  // ---------------------------------------------------------------------
  // The instance

  class Axios {
    /** `this.defaults`. */
    var defaults: Config
    /** The interceptors `interceptors.request.forEach` visits, in order. */
    var requestInterceptors: seq<Interceptor>
    /** The interceptors `interceptors.response.forEach` visits, in order. */
    var responseInterceptors: seq<Interceptor>

    constructor (instanceConfig: Config)
      ensures defaults == instanceConfig
      ensures requestInterceptors == [] && responseInterceptors == []
    {
      defaults := instanceConfig;
      requestInterceptors := [];
      responseInterceptors := [];
    }

    /** `request(...)`: the config that enters the chain and the promise
        handed back. Nothing of the instance changes. */
    method Request(args: RequestArgs, merge: (Config, Config) -> Config) returns (config: Config, promise: Promise)
      ensures config == RequestConfig(args, defaults, merge)
      ensures promise == Attach(Resolved(ConfigValue(config)), ChainSpec(requestInterceptors, responseInterceptors))
    {
      var given: Config;
      if args.UrlArg? {
        given := args.config.GetOr(EmptyConfig);
        given := given.(url := Some(args.url));
      } else {
        given := args.config.GetOr(EmptyConfig);
      }
      config := merge(defaults, given);
      if Truthy(config.httpMethod) {
        config := config.(httpMethod := Some(ToLower(config.httpMethod.value)));
      } else if Truthy(defaults.httpMethod) {
        config := config.(httpMethod := Some(ToLower(defaults.httpMethod.value)));
      } else {
        config := config.(httpMethod := Some("get"));
      }

      var chain := AssembleChain();
      promise := Drain(chain, Resolved(ConfigValue(config)));
    }

    /** The array of slots: `[dispatchRequest, undefined]`, each request
        interceptor put in front, each response interceptor put behind. */
    method AssembleChain() returns (chain: Chain)
      ensures fresh(chain)
      ensures chain.slots == ChainSpec(requestInterceptors, responseInterceptors)
    {
      chain := new Chain([Some(DispatchRequest), None]);
      var reqs := requestInterceptors;
      var i := 0;
      while i < |reqs|
        invariant 0 <= i <= |reqs|
        invariant chain.slots == RequestSlots(reqs[..i]) + [Some(DispatchRequest), None]
      {
        RequestSlotsStep(reqs, i);
        chain.Unshift(reqs[i].fulfilled, reqs[i].rejected);
        i := i + 1;
      }
      assert reqs[..i] == reqs;
      var resps := responseInterceptors;
      var j := 0;
      while j < |resps|
        invariant 0 <= j <= |resps|
        invariant chain.slots == RequestSlots(reqs) + [Some(DispatchRequest), None] + ResponseSlots(resps[..j])
      {
        ResponseSlotsStep(resps, j);
        chain.Push(resps[j].fulfilled, resps[j].rejected);
        j := j + 1;
      }
      assert resps[..j] == resps;
    }

    /** `getUri(config)`. */
    method GetUriOf(config: Config, merge: (Config, Config) -> Config) returns (r: Result<string, TypeError>)
      ensures r == GetUri(defaults, config, merge)
    {
      var merged := merge(defaults, config);
      if merged.url.None? {
        return Err(ReplaceOnUndefined);
      }
      var built := BuildUrl.BuildUrl(merged.url.value, merged.params, merged.paramsSerializer);
      return Ok(StripLeadingQuestion(built));
    }

    /** `delete`, `get`, `head`, `options`. */
    method RequestNoData(verb: NoDataVerb, url: string, config: Option<Config>, merge: (Config, Config) -> Config)
      returns (sent: Config, promise: Promise)
      ensures sent == RequestConfig(ConfigArg(Some(NoDataAliasConfig(verb, url, config, merge))), defaults, merge)
      ensures promise == Attach(Resolved(ConfigValue(sent)), ChainSpec(requestInterceptors, responseInterceptors))
    {
      sent, promise := Request(ConfigArg(Some(NoDataAliasConfig(verb, url, config, merge))), merge);
    }

    /** `post`, `put`, `patch`. */
    method RequestWithData(verb: DataVerb, url: string, data: Option<Value>, config: Option<Config>,
                           merge: (Config, Config) -> Config)
      returns (sent: Config, promise: Promise)
      ensures sent == RequestConfig(ConfigArg(Some(DataAliasConfig(verb, url, data, config, merge))), defaults, merge)
      ensures promise == Attach(Resolved(ConfigValue(sent)), ChainSpec(requestInterceptors, responseInterceptors))
    {
      sent, promise := Request(ConfigArg(Some(DataAliasConfig(verb, url, data, config, merge))), merge);
    }
  }

  // ---------------------------------------------------------------------
  // The shape of the chain

  lemma {:induction false} PairsAppend(a: seq<Option<Handler>>, b: seq<Option<Handler>>)
    requires |a| % 2 == 0
    ensures Pairs(a + b) == Pairs(a) + Pairs(b)
    decreases |a|
  {
    if a == [] {
      assert a + b == b;
    } else {
      assert (a + b)[2..] == a[2..] + b;
      PairsAppend(a[2..], b);
    }
  }

  lemma SlotsPair(ic: Interceptor, rest: seq<Option<Handler>>)
    ensures Pairs(Slots(ic) + rest) == [AsPair(ic)] + Pairs(rest)
  {
    assert (Slots(ic) + rest)[2..] == rest;
  }

  lemma RequestOrderLast(reqs: seq<Interceptor>)
    requires reqs != []
    ensures RequestOrder(reqs) == [AsPair(reqs[|reqs| - 1])] + RequestOrder(reqs[..|reqs| - 1])
  {
    var n := |reqs|;
    var init := reqs[..n - 1];
    var rhs := [AsPair(reqs[n - 1])] + RequestOrder(init);
    forall k | 0 <= k < n
      ensures rhs[k] == RequestOrder(reqs)[k]
    {
      if k > 0 {
        var j := n - 1 - k;
        assert |init| - 1 - (k - 1) == j;
        assert init[j] == reqs[j];
        assert rhs[k] == RequestOrder(init)[k - 1] == AsPair(init[j]);
      }
    }
  }

  /** Request interceptors run last-visited first. */
  lemma {:induction false} RequestSlotsOrder(reqs: seq<Interceptor>)
    ensures Pairs(RequestSlots(reqs)) == RequestOrder(reqs)
    decreases |reqs|
  {
    if reqs != [] {
      var init := reqs[..|reqs| - 1];
      SlotsPair(reqs[|reqs| - 1], RequestSlots(init));
      RequestSlotsOrder(init);
      RequestOrderLast(reqs);
    }
  }

  lemma ResponseOrderLast(resps: seq<Interceptor>)
    requires resps != []
    ensures ResponseOrder(resps) == ResponseOrder(resps[..|resps| - 1]) + [AsPair(resps[|resps| - 1])]
  {
    var n := |resps|;
    var lhs := ResponseOrder(resps[..n - 1]) + [AsPair(resps[n - 1])];
    forall k | 0 <= k < n
      ensures lhs[k] == ResponseOrder(resps)[k]
    {
      if k < n - 1 {
        assert lhs[k] == ResponseOrder(resps[..n - 1])[k];
      }
    }
  }

  /** Response interceptors run in the order visited. */
  lemma {:induction false} ResponseSlotsOrder(resps: seq<Interceptor>)
    ensures Pairs(ResponseSlots(resps)) == ResponseOrder(resps)
    decreases |resps|
  {
    if resps != [] {
      var last := resps[|resps| - 1];
      var init := resps[..|resps| - 1];
      ResponseSlotsOrder(init);
      PairsAppend(ResponseSlots(init), Slots(last));
      SlotsPair(last, []);
      assert Slots(last) + [] == Slots(last);
      ResponseOrderLast(resps);
    }
  }

  /** The chain splits into its three parts, pair-wise. */
  lemma ChainPairs(reqs: seq<Interceptor>, resps: seq<Interceptor>)
    ensures Pairs(ChainSpec(reqs, resps))
            == Pairs(RequestSlots(reqs)) + [(Some(DispatchRequest), None)] + Pairs(ResponseSlots(resps))
  {
    PairsAround(RequestSlots(reqs), ResponseSlots(resps));
  }

  /** Pairing is unchanged by putting the dispatch pair between two arrays
      of whole pairs. */
  lemma PairsAround(a: seq<Option<Handler>>, b: seq<Option<Handler>>)
    requires |a| % 2 == 0
    ensures Pairs(a + [Some(DispatchRequest), None] + b)
            == Pairs(a) + [(Some(DispatchRequest), None)] + Pairs(b)
  {
    var mid: seq<Option<Handler>> := [Some(DispatchRequest), None];
    var m := [(Some(DispatchRequest), None)];
    assert Pairs(mid + b) == m + Pairs(b) by {
      PairsAppend(mid, b);
      assert mid[2..] == [];
    }
    assert Pairs(a + (mid + b)) == Pairs(a) + (m + Pairs(b)) by {
      PairsAppend(a, mid + b);
    }
    assert a + mid + b == a + (mid + b);
  }

  /** The whole chain in running order: request interceptors last-visited
      first, then `dispatchRequest` with no rejection handler, then the
      response interceptors as visited. */
  lemma ChainOrder(reqs: seq<Interceptor>, resps: seq<Interceptor>)
    ensures Pairs(ChainSpec(reqs, resps))
            == RequestOrder(reqs) + [(Some(DispatchRequest), None)] + ResponseOrder(resps)
  {
    ChainPairs(reqs, resps);
    RequestSlotsOrder(reqs);
    ResponseSlotsOrder(resps);
  }

  // ---------------------------------------------------------------------
  // The draining loop and the promise it builds

  /** Every pair of the array is attached once, in array order. */
  lemma {:induction false} AttachLinks(p: Promise, chain: seq<Option<Handler>>)
    ensures Links(Attach(p, chain)) == Links(p) + Pairs(chain)
    decreases |chain|
  {
    if chain != [] {
      if |chain| > 1 {
        AttachLinks(Chained(p, chain[0], chain[1]), chain[2..]);
      }
    }
  }

  /** The promise settles as its start runs through the pairs in order. */
  lemma {:induction false} AttachSettles(env: Env, p: Promise, chain: seq<Option<Handler>>)
    ensures Settle(env, Attach(p, chain)) == Run(env, Settle(env, p), Pairs(chain))
    decreases |chain|
  {
    if chain != [] {
      if |chain| > 1 {
        AttachSettles(env, Chained(p, chain[0], chain[1]), chain[2..]);
      }
    }
  }

  lemma {:induction false} RunAppend(env: Env, o: Outcome,
                                     a: seq<(Option<Handler>, Option<Handler>)>,
                                     b: seq<(Option<Handler>, Option<Handler>)>)
    ensures Run(env, o, a + b) == Run(env, Run(env, o, a), b)
    decreases |a|
  {
    if a == [] {
      assert a + b == b;
    } else {
      assert (a + b)[1..] == a[1..] + b;
      RunAppend(env, Then(env, o, a[0].0, a[0].1), a[1..], b);
    }
  }

  /** A rejection passes untouched through pairs that have no rejection
      handler, whatever their fulfilment handlers are. */
  lemma {:induction false} RejectionPassesThrough(env: Env, e: Value, pairs: seq<(Option<Handler>, Option<Handler>)>)
    requires forall k :: 0 <= k < |pairs| ==> pairs[k].1.None?
    ensures Run(env, Rejected(e), pairs) == Rejected(e)
    decreases |pairs|
  {
    if pairs != [] {
      RejectionPassesThrough(env, e, pairs[1..]);
    }
  }

  /** With no interceptors, the request's outcome is what `dispatchRequest`
      makes of the config. */
  lemma NoInterceptorsDispatch(env: Env, config: Config)
    ensures Settle(env, Attach(Resolved(ConfigValue(config)), ChainSpec([], [])))
            == env.dispatch(ConfigValue(config))
  {
    AttachSettles(env, Resolved(ConfigValue(config)), ChainSpec([], []));
    ChainOrder([], []);
    assert RequestOrder([]) == [] && ResponseOrder([]) == [];
  }

  /** If the chain is rejected after the first `i` request interceptors
      have run, and the interceptors that would run next (the ones visited
      first) have no rejection handler, then `dispatchRequest` never runs:
      the rejection goes straight to the response interceptors. */
  lemma RequestErrorBypassesDispatch(env: Env, v: Value, reqs: seq<Interceptor>, resps: seq<Interceptor>,
                                     i: int, e: Value)
    requires 0 <= i <= |reqs|
    requires Run(env, Fulfilled(v), RequestOrder(reqs)[..i]) == Rejected(e)
    requires forall k :: 0 <= k < |reqs| - i ==> reqs[k].rejected.None?
    ensures Settle(env, Attach(Resolved(v), ChainSpec(reqs, resps))) == Run(env, Rejected(e), ResponseOrder(resps))
  {
    var order := RequestOrder(reqs);
    var pre, mid := order[..i], order[i..] + [(Some(DispatchRequest), None)];
    assert Settle(env, Attach(Resolved(v), ChainSpec(reqs, resps)))
        == Run(env, Fulfilled(v), pre + mid + ResponseOrder(resps)) by {
      AttachSettles(env, Resolved(v), ChainSpec(reqs, resps));
      ChainOrder(reqs, resps);
      assert order == pre + order[i..];
      assert order + [(Some(DispatchRequest), None)] + ResponseOrder(resps) == pre + mid + ResponseOrder(resps);
    }
    LaterRequestsNoRejection(reqs, i);
    RejectedSkips(env, v, e, pre, mid, ResponseOrder(resps));
  }

  /** Once a prefix of the pairs has rejected, pairs without a rejection
      handler are skipped. */
  lemma RejectedSkips(env: Env, v: Value, e: Value, pre: seq<(Option<Handler>, Option<Handler>)>,
                      mid: seq<(Option<Handler>, Option<Handler>)>, tail: seq<(Option<Handler>, Option<Handler>)>)
    requires Run(env, Fulfilled(v), pre) == Rejected(e)
    requires forall k :: 0 <= k < |mid| ==> mid[k].1.None?
    ensures Run(env, Fulfilled(v), pre + mid + tail) == Run(env, Rejected(e), tail)
  {
    assert pre + mid + tail == pre + (mid + tail);
    RunAppend(env, Fulfilled(v), pre, mid + tail);
    RunAppend(env, Rejected(e), mid, tail);
    RejectionPassesThrough(env, e, mid);
  }

  /** The pairs that run after the first `i` request interceptors, up to and
      including `dispatchRequest`, have no rejection handler when the
      interceptors visited first have none. */
  lemma LaterRequestsNoRejection(reqs: seq<Interceptor>, i: int)
    requires 0 <= i <= |reqs|
    requires forall k :: 0 <= k < |reqs| - i ==> reqs[k].rejected.None?
    ensures var pairs := RequestOrder(reqs)[i..] + [(Some(DispatchRequest), None)];
            forall k :: 0 <= k < |pairs| ==> pairs[k].1.None?
  {
    var post := RequestOrder(reqs)[i..];
    var pairs := post + [(Some(DispatchRequest), None)];
    forall k | 0 <= k < |pairs|
      ensures pairs[k].1.None?
    {
      if k < |post| {
        assert pairs[k] == post[k] == AsPair(reqs[|reqs| - 1 - (i + k)]);
      }
    }
  }

  // ---------------------------------------------------------------------
  // The method, `getUri`, the aliases

  lemma LowerIdempotent(s: string)
    ensures IsLowerCase(ToLower(s)) && ToLower(ToLower(s)) == ToLower(s)
  {
  }

  /** The final method is a non-empty lower-case name, and normalising a
      config that already carries it changes nothing. */
  lemma NormalizedMethodIsLower(merged: Config, defaults: Config)
    ensures var m := NormalizedMethod(merged, defaults);
            IsLowerCase(m) && m != ""
            && NormalizedMethod(merged.(httpMethod := Some(m)), defaults) == m
  {
    if Truthy(merged.httpMethod) {
      LowerIdempotent(merged.httpMethod.value);
    } else if Truthy(defaults.httpMethod) {
      LowerIdempotent(defaults.httpMethod.value);
    } else {
      assert ToLower("get") == "get" by {
        assert LowerChar('g') == 'g' && LowerChar('e') == 'e' && LowerChar('t') == 't';
      }
    }
  }

  /** The method comes from the merged config when it sets one, else from
      the defaults, else it is "get". */
  lemma MethodSources(args: RequestArgs, defaults: Config, merge: (Config, Config) -> Config)
    ensures var merged := merge(defaults, ArgumentConfig(args));
            var m := RequestConfig(args, defaults, merge).httpMethod;
            (Truthy(merged.httpMethod) ==> m == Some(ToLower(merged.httpMethod.value)))
            && (!Truthy(merged.httpMethod) && Truthy(defaults.httpMethod) ==> m == Some(ToLower(defaults.httpMethod.value)))
            && (!Truthy(merged.httpMethod) && !Truthy(defaults.httpMethod) ==> m == Some("get"))
  {
  }

  /** A string first argument becomes the config's `url`; nothing else of
      the given config changes. */
  lemma StringFormSetsUrl(url: string, config: Config)
    ensures ArgumentConfig(UrlArg(url, Some(config))) == config.(url := Some(url))
    ensures ArgumentConfig(UrlArg(url, None)).url == Some(url)
  {
  }

  /** `getUri` removes one leading "?", not more. */
  lemma StripsOneQuestion(rest: string)
    ensures StripLeadingQuestion("?" + rest) == rest
  {
  }

  /** With an empty URL and a non-empty query, `getUri` gives the bare
      query. */
  lemma GetUriBareQuery(defaults: Config, config: Config, merge: (Config, Config) -> Config)
    requires merge(defaults, config).url == Some("")
    requires merge(defaults, config).params.Some?
    requires BuildUrl.Serialize(merge(defaults, config).params.value, merge(defaults, config).paramsSerializer) != ""
    ensures GetUri(defaults, config, merge)
            == Ok(BuildUrl.Serialize(merge(defaults, config).params.value, merge(defaults, config).paramsSerializer))
  {
    var m := merge(defaults, config);
    var q := BuildUrl.Serialize(m.params.value, m.paramsSerializer);
    assert BuildUrl.AppendQuery("", q) == "?" + q;
    StripsOneQuestion(q);
  }

  /** A URL that does not start with "?" comes back as `buildURL` made
      it. */
  lemma GetUriKeepsBuiltUrl(defaults: Config, config: Config, merge: (Config, Config) -> Config)
    requires merge(defaults, config).url.Some?
    requires var m := merge(defaults, config);
             var u := m.url.value;
             u != [] && u[0] != '?' && m.params.None?
    ensures GetUri(defaults, config, merge) == Ok(merge(defaults, config).url.value)
  {
  }

  /** Under a `mergeConfig` that lets the alias's own fields win, an alias
      request goes out with the alias's method and URL, and `get` and its
      kind send the config's own `data`. */
  lemma NoDataAliasSends(verb: NoDataVerb, url: string, config: Option<Config>, defaults: Config,
                         merge: (Config, Config) -> Config)
    requires SecondWins(merge)
    ensures var sent := RequestConfig(ConfigArg(Some(NoDataAliasConfig(verb, url, config, merge))), defaults, merge);
            sent.httpMethod == Some(NoDataName(verb)) && sent.url == Some(url)
            && (config.Some? && config.value.data.Some? ==> sent.data == config.value.data)
  {
    var base := config.GetOr(EmptyConfig);
    var own := EmptyConfig.(httpMethod := Some(NoDataName(verb)), url := Some(url), data := base.data);
    var alias := merge(base, own);
    var merged := merge(defaults, alias);
    assert alias.httpMethod == Some(NoDataName(verb)) && alias.url == Some(url);
    assert merged.httpMethod == Some(NoDataName(verb)) && merged.url == Some(url);
    AliasNameLower(NoDataName(verb));
    if config.Some? && config.value.data.Some? {
      assert alias.data == base.data;
    }
  }

  /** `post` and its kind send the body they are given. */
  lemma DataAliasSends(verb: DataVerb, url: string, data: Option<Value>, config: Option<Config>, defaults: Config,
                       merge: (Config, Config) -> Config)
    requires SecondWins(merge)
    ensures var sent := RequestConfig(ConfigArg(Some(DataAliasConfig(verb, url, data, config, merge))), defaults, merge);
            sent.httpMethod == Some(DataName(verb)) && sent.url == Some(url)
            && (data.Some? ==> sent.data == data)
  {
    var own := EmptyConfig.(httpMethod := Some(DataName(verb)), url := Some(url), data := data);
    var alias := merge(config.GetOr(EmptyConfig), own);
    var merged := merge(defaults, alias);
    assert alias.httpMethod == Some(DataName(verb)) && alias.url == Some(url);
    assert merged.httpMethod == Some(DataName(verb)) && merged.url == Some(url);
    AliasNameLower(DataName(verb));
  }

  /** A name made of lower-case letters is its own lower case. */
  lemma AliasNameLower(name: string)
    requires forall i :: 0 <= i < |name| ==> IsLowerAscii(name[i])
    ensures ToLower(name) == name
  {
  }
}
