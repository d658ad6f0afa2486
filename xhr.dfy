/** The settle-once half of the XMLHttpRequest adapter. After `send`, five
    callbacks can run: `onreadystatechange` (handleLoad), `onabort`,
    `onerror`, `ontimeout`, and the cancel token's `onCanceled`. The adapter's
    promise settles at most once, and each callback that acts clears the
    local `request` handle, which makes the late load, abort and cancel
    callbacks return early. */
module XhrAdapter {
  import opened Wrappers
  import opened Strings
  import opened CancelRecord
  import ParseHeaders

  /** The XMLHttpRequest as a callback reads it. */
  datatype XhrSnapshot = XhrSnapshot(
    readyState: int,
    status: int,
    statusText: string,
    responseURL: string,
    responseText: string,
    response: string,
    allResponseHeaders: string)

  /** `response.data`: which of the two XMLHttpRequest fields was read. */
  datatype ResponseData = FromResponseText(text: string) | FromResponse(value: string)

  datatype Response = Response(data: ResponseData, status: int, statusText: string,
                               headers: map<string, ParseHeaders.HeaderValue>)

  /** Why the promise was rejected: an error made by `createError` (message
      and code; the code is absent for a network error), a status that
      `settle` refused, or the token's `Cancel`. */
  datatype Reason =
    | AxiosError(message: string, code: Option<string>)
    | StatusRejected(response: Response)
    | Canceled(cancel: Cancel)

  datatype Settlement = Fulfilled(response: Response) | Rejected(reason: Reason)

  /** The parts of `config` the callbacks read, and two facts about the
      environment: `accepts` is the decision `settle` makes on a status
      (`validateStatus`), and `abortFiresEvents` says whether the host runs
      the `onabort` handler synchronously inside `request.abort()`. */
  datatype Options = Options(
    responseType: string,
    timeout: nat,
    timeoutErrorMessage: string,
    accepts: int -> bool,
    abortFiresEvents: bool)

  datatype Event = Load(xhr: XhrSnapshot) | Abort | NetworkError | Timeout | CancelRequested(cancel: Cancel)

  // ---------------------------------------------------------------------
  // The decisions the callbacks make

  /** handleLoad goes on only for readyState 4 and, when the status is 0,
      only for a `file:` URL (a file request reports status 0 on success). */
  predicate LoadReady(x: XhrSnapshot) {
    x.readyState == 4 && !(x.status == 0 && !StartsWith(x.responseURL, "file:"))
  }

  /** `responseText` when no response type, or "text", was asked for;
      `response` otherwise. */
  function DataOf(o: Options, x: XhrSnapshot): (r: ResponseData)
    ensures r.FromResponseText? <==> o.responseType == "" || o.responseType == "text"
    ensures r.FromResponseText? ==> r.text == x.responseText
    ensures r.FromResponse? ==> r.value == x.response
  {
    if o.responseType == "" || o.responseType == "text" then FromResponseText(x.responseText) else FromResponse(x.response)
  }

  function ResponseOf(o: Options, x: XhrSnapshot): Response {
    Response(DataOf(o, x), x.status, x.statusText, ParseHeaders.ParseHeadersSpec(Some(x.allResponseHeaders)))
  }

  /** What `settle` does with a response. */
  function Settled(o: Options, resp: Response): (r: Settlement)
    ensures r.Fulfilled? <==> o.accepts(resp.status)
    ensures r == Fulfilled(resp) || r == Rejected(StatusRejected(resp))
  {
    if o.accepts(resp.status) then Fulfilled(resp) else Rejected(StatusRejected(resp))
  }

  /** The timeout message: `timeoutErrorMessage` when it is set, else
      "timeout of <timeout>ms exceeded". */
  function TimeoutMessage(o: Options): (r: string)
    ensures o.timeoutErrorMessage != "" ==> r == o.timeoutErrorMessage
    ensures o.timeoutErrorMessage == "" ==>
      |r| > 22 && r[..11] == "timeout of " && r[|r| - 11..] == "ms exceeded"
      && r[11..|r| - 11] == NatToString(o.timeout)
      && DigitsValue(r[11..|r| - 11]) == o.timeout
  {
    if o.timeoutErrorMessage != "" then o.timeoutErrorMessage
    else
      var r := "timeout of " + NatToString(o.timeout) + "ms exceeded";
      assert r[11..|r| - 11] == NatToString(o.timeout);
      NatToStringValue(o.timeout);
      r
  }

  const AbortError: Reason := AxiosError("Request aborted", Some("ECONNABORTED"))
  const NetworkFailure: Reason := AxiosError("Network Error", None)

  function TimeoutError(o: Options): Reason {
    AxiosError(TimeoutMessage(o), Some("ECONNABORTED"))
  }

  // ---------------------------------------------------------------------
  // The reference state machine

  /** `live` is `request !== null`; `aborted` records that `request.abort()`
      was called; `result` is how the promise settled, if it has. */
  datatype Handle = Handle(live: bool, aborted: bool, result: Option<Settlement>)

  /** The handle is live exactly while the promise is pending. */
  predicate Consistent(h: Handle) {
    h.live <==> h.result.None?
  }

  /** A promise settles once: later `resolve`/`reject` calls are ignored. */
  function SettleOnce(result: Option<Settlement>, s: Settlement): (r: Option<Settlement>)
    ensures r.Some?
    ensures result.Some? ==> r == result
    ensures result.None? ==> r == Some(s)
  {
    if result.Some? then result else Some(s)
  }

  /** `resolve`/`reject` called with these settlements, one after another. */
  function SettleAll(result: Option<Settlement>, ss: seq<Settlement>): Option<Settlement>
    decreases |ss|
  {
    if ss == [] then result else SettleAll(SettleOnce(result, ss[0]), ss[1..])
  }

  /** Of any series of `resolve`/`reject` calls, the first one decides how
      the promise settles, and on a settled promise none has an effect. */
  lemma {:induction false} SettleOnceFirstWins(result: Option<Settlement>, ss: seq<Settlement>)
    ensures SettleAll(result, ss) == if result.Some? then result else if ss == [] then None else Some(ss[0])
    decreases |ss|
  {
    if ss != [] {
      SettleOnceFirstWins(SettleOnce(result, ss[0]), ss[1..]);
    }
  }

  /** handleAbort: ignored once the handle is cleared. */
  function AbortStep(h: Handle): Handle {
    if !h.live then h
    else Handle(false, h.aborted, SettleOnce(h.result, Rejected(AbortError)))
  }

  /** handleError: no guard, the reject call is simply ignored once the
      promise has settled. */
  function ErrorStep(h: Handle): Handle {
    Handle(false, h.aborted, SettleOnce(h.result, Rejected(NetworkFailure)))
  }

  /** One callback, run to completion. */
  function Step(o: Options, h: Handle, ev: Event): Handle {
    match ev
    case Load(x) =>
      if !h.live || !LoadReady(x) then h
      else Handle(false, h.aborted, SettleOnce(h.result, Settled(o, ResponseOf(o, x))))
    case Abort => AbortStep(h)
    case NetworkError => ErrorStep(h)
    case Timeout =>
      Handle(false, h.aborted, SettleOnce(h.result, Rejected(TimeoutError(o))))
    case CancelRequested(c) =>
      if !h.live then h
      else
        var h1 := Handle(h.live, true, h.result);
        var h2 := if o.abortFiresEvents then AbortStep(h1) else h1;
        Handle(false, true, SettleOnce(h2.result, Rejected(Canceled(c))))
  }

  /** Callbacks one after another. */
  function Run(o: Options, h: Handle, evs: seq<Event>): Handle
    decreases |evs|
  {
    if evs == [] then h else Run(o, Step(o, h, evs[0]), evs[1..])
  }

  // ---------------------------------------------------------------------
  // What the state machine promises

  /** Every callback keeps the handle live exactly while nothing settled. */
  lemma StepConsistent(o: Options, h: Handle, ev: Event)
    requires Consistent(h)
    ensures Consistent(Step(o, h, ev))
  {
  }

  /** Once settled, the result never changes, whatever runs later. */
  lemma {:induction false} FirstSettleWins(o: Options, h: Handle, evs: seq<Event>)
    requires h.result.Some?
    ensures Run(o, h, evs).result == h.result
    decreases |evs|
  {
    if evs != [] {
      FirstSettleWins(o, Step(o, h, evs[0]), evs[1..]);
    }
  }

  /** After the handle is cleared, no callback changes anything: the late
      load, abort and cancel callbacks return early, and a late error or
      timeout only makes a reject call that is ignored. */
  lemma LateCallbacksNoop(o: Options, h: Handle, ev: Event)
    requires Consistent(h) && !h.live
    ensures Step(o, h, ev) == h
  {
  }

  lemma {:induction false} LateRunNoop(o: Options, h: Handle, evs: seq<Event>)
    requires Consistent(h) && !h.live
    ensures Run(o, h, evs) == h
    decreases |evs|
  {
    if evs != [] {
      LateCallbacksNoop(o, h, evs[0]);
      LateRunNoop(o, h, evs[1..]);
    }
  }

  /** A callback that acts settles the promise and clears the handle. */
  lemma ActingCallbackClears(o: Options, h: Handle, ev: Event)
    requires Consistent(h) && h.live
    requires ev.Load? ==> LoadReady(ev.xhr)
    ensures !Step(o, h, ev).live && Step(o, h, ev).result.Some?
  {
  }

  /** handleLoad ignores an unfinished request, and a status of 0 unless
      the URL is a `file:` URL. */
  lemma LoadIgnored(o: Options, h: Handle, x: XhrSnapshot)
    requires x.readyState != 4 || (x.status == 0 && !StartsWith(x.responseURL, "file:"))
    ensures Step(o, h, Load(x)) == h
  {
  }

  /** A finished load on a live handle hands the response to `settle`,
      with the data taken from the field the response type selects and the
      headers parsed by `parseHeaders`. */
  lemma LoadSettles(o: Options, h: Handle, x: XhrSnapshot)
    requires Consistent(h) && h.live && LoadReady(x)
    ensures Step(o, h, Load(x)).result == Some(Settled(o, ResponseOf(o, x)))
    ensures o.accepts(x.status) ==> Step(o, h, Load(x)).result.value.Fulfilled?
    ensures (o.responseType == "" || o.responseType == "text") ==>
              ResponseOf(o, x).data == FromResponseText(x.responseText)
  {
  }

  /** A `file:` response with status 0 is not ignored. */
  lemma FileUrlStatusZero(o: Options, h: Handle, x: XhrSnapshot)
    requires Consistent(h) && h.live
    requires x.readyState == 4 && x.status == 0 && StartsWith(x.responseURL, "file:")
    ensures Step(o, h, Load(x)).result.Some?
  {
  }

  /** A timeout on a live handle rejects with code ECONNABORTED and the
      configured or default message. */
  lemma TimeoutRejects(o: Options, h: Handle)
    requires Consistent(h) && h.live
    ensures Step(o, h, Timeout).result == Some(Rejected(AxiosError(TimeoutMessage(o), Some("ECONNABORTED"))))
  {
  }

  /** Cancelling a live request aborts it and rejects with the token's
      `Cancel`, unless the host runs `onabort` inside `abort()`: then the
      "Request aborted" rejection comes first and the `Cancel` is ignored. */
  lemma CancelWhileLive(o: Options, h: Handle, c: Cancel)
    requires Consistent(h) && h.live
    ensures Step(o, h, CancelRequested(c)).aborted
    ensures !Step(o, h, CancelRequested(c)).live
    ensures !o.abortFiresEvents ==> Step(o, h, CancelRequested(c)).result == Some(Rejected(Canceled(c)))
    ensures o.abortFiresEvents ==> Step(o, h, CancelRequested(c)).result == Some(Rejected(AbortError))
  {
  }

  // ---------------------------------------------------------------------
  // The callbacks as the adapter writes them

  /** The state the callbacks share inside `dispatchXhrRequest`. */
  class XhrRequest {
    /** `request !== null`. */
    var live: bool
    /** `request.abort()` has been called. */
    var aborted: bool
    /** How the adapter's promise settled. */
    var result: Option<Settlement>

    function State(): Handle
      reads this
    {
      Handle(live, aborted, result)
    }

    /** Just after `request.send(...)`: a live handle, a pending promise. */
    constructor ()
      ensures State() == Handle(true, false, None) && Consistent(State())
    {
      live := true;
      aborted := false;
      result := None;
    }

    /** `resolve`/`reject` of the adapter's promise. */
    method SettlePromise(s: Settlement)
      modifies this
      ensures result == SettleOnce(old(result), s)
      ensures live == old(live) && aborted == old(aborted)
    {
      if result.None? {
        result := Some(s);
      }
    }

    method HandleLoad(o: Options, x: XhrSnapshot)
      modifies this
      ensures State() == Step(o, old(State()), Load(x))
    {
      if !live || x.readyState != 4 {
        return;
      }
      if x.status == 0 && !StartsWith(x.responseURL, "file:") {
        return;
      }
      var responseHeaders := ParseHeaders.ParseHeaders(Some(x.allResponseHeaders));
      var responseData := if o.responseType == "" || o.responseType == "text" then FromResponseText(x.responseText) else FromResponse(x.response);
      var response := Response(responseData, x.status, x.statusText, responseHeaders);
      SettlePromise(Settled(o, response));
      live := false;
    }

    method HandleAbort()
      modifies this
      ensures State() == AbortStep(old(State()))
    {
      if !live {
        return;
      }
      SettlePromise(Rejected(AbortError));
      live := false;
    }

    method HandleError()
      modifies this
      ensures State() == ErrorStep(old(State()))
    {
      SettlePromise(Rejected(NetworkFailure));
      live := false;
    }

    method HandleTimeout(o: Options)
      modifies this
      ensures State() == Step(o, old(State()), Timeout)
    {
      var timeoutErrorMessage := "timeout of " + NatToString(o.timeout) + "ms exceeded";
      if o.timeoutErrorMessage != "" {
        timeoutErrorMessage := o.timeoutErrorMessage;
      }
      SettlePromise(Rejected(AxiosError(timeoutErrorMessage, Some("ECONNABORTED"))));
      live := false;
    }

    method OnCanceled(o: Options, c: Cancel)
      modifies this
      ensures State() == Step(o, old(State()), CancelRequested(c))
    {
      if !live {
        return;
      }
      aborted := true;
      if o.abortFiresEvents {
        HandleAbort();
      }
      SettlePromise(Rejected(Canceled(c)));
      live := false;
    }
  }
}
