/** `CancelToken`: a one-shot cancellation switch. The token's `reason` is
    absent until its `cancel` function is first called; that call stores a
    new `Cancel` and resolves the token's promise with it, and every later
    call does nothing. */
module CancelTokens {
  import opened Wrappers
  import opened CancelRecord

  /** The executor handed to `new CancelToken(executor)`: not a function at
      all, or a function that, while the constructor runs, calls the
      `cancel` it receives once per entry of `syncCalls`, with that message. */
  datatype Executor = NotAFunction | Function(syncCalls: seq<Option<string>>)

  /** The `TypeError` the constructor throws. */
  datatype TypeError = TypeError(message: string)

  /** What a token looks like after `cancel` was called with these messages
      in order: the first call decides. */
  function ReasonAfter(calls: seq<Option<string>>): (r: Option<Cancel>)
    ensures r.None? <==> calls == []
    ensures calls != [] ==> r == Some(Cancel(calls[0]))
  {
    if calls == [] then None else Some(Cancel(calls[0]))
  }

  class CancelToken {
    /** `token.reason`. */
    var reason: Option<Cancel>
    /** The value `token.promise` has been resolved with, if any. */
    var resolvedWith: Option<Cancel>

    /** The promise is resolved exactly when a reason is set, and with that
        very reason. */
    ghost predicate Valid()
      reads this
    {
      reason == resolvedWith
    }

    /** A token whose promise is pending and which has no reason. */
    constructor ()
      ensures Valid() && reason.None? && resolvedWith.None?
    {
      reason := None;
      resolvedWith := None;
    }

    /** `resolvePromise(value)`: a promise settles once; later resolves are
        ignored. */
    method ResolvePromise(value: Cancel)
      modifies this
      ensures reason == old(reason)
      ensures resolvedWith == if old(resolvedWith).None? then Some(value) else old(resolvedWith)
    {
      if resolvedWith.None? {
        resolvedWith := Some(value);
      }
    }

    /** The `cancel(message)` closure handed to the executor. */
    method Cancel(message: Option<string>)
      requires Valid()
      modifies this
      ensures Valid()
      ensures old(reason).Some? ==> reason == old(reason) && resolvedWith == old(resolvedWith)
      ensures old(reason).None? ==> reason == Some(CancelRecord.Cancel.Cancel(message)) && resolvedWith == reason
    {
      if reason.Some? {
        return;
      }
      reason := Some(CancelRecord.Cancel.Cancel(message));
      ResolvePromise(reason.value);
    }

    /** `throwIfRequested()`: fails with the stored reason exactly when the
        token is cancelled, and changes nothing. */
    method ThrowIfRequested() returns (r: Result<(), Cancel>)
      ensures r.Err? <==> reason.Some?
      ensures r.Err? ==> r.error == reason.value
    {
      if reason.Some? {
        return Err(reason.value);
      }
      return Ok(());
    }
  }

  /** `new CancelToken(executor)`. */
  method NewCancelToken(executor: Executor) returns (r: Result<CancelToken, TypeError>)
    ensures executor.NotAFunction? ==> r == Err(TypeError("executor must be a function."))
    ensures executor.Function? ==> r.Ok? && fresh(r.value) && r.value.Valid()
                                   && r.value.reason == ReasonAfter(executor.syncCalls)
  {
    if executor.NotAFunction? {
      return Err(TypeError("executor must be a function."));
    }
    var token := new CancelToken();
    var calls := executor.syncCalls;
    var i := 0;
    while i < |calls|
      invariant 0 <= i <= |calls|
      invariant token.Valid() && token.reason == ReasonAfter(calls[..i])
    {
      token.Cancel(calls[i]);
      i := i + 1;
    }
    assert calls[..i] == calls;
    return Ok(token);
  }

  /** The `cancel` function `source()` hands out, bound to its token. */
  datatype Canceler = Canceler(token: CancelToken)

  /** Calling a `cancel` function obtained from `source()`. */
  method InvokeCanceler(cancel: Canceler, message: Option<string>)
    requires cancel.token.Valid()
    modifies cancel.token
    ensures cancel.token.Valid()
    ensures cancel.token.reason == if old(cancel.token.reason).None? then Some(Cancel(message)) else old(cancel.token.reason)
  {
    cancel.token.Cancel(message);
  }

  /** `CancelToken.source()`: a fresh, uncancelled token and the `cancel`
      function of that same token. */
  method Source() returns (token: CancelToken, cancel: Canceler)
    ensures fresh(token) && token.Valid() && token.reason.None?
    ensures cancel.token == token
  {
    var r := NewCancelToken(Function([]));
    token := r.value;
    cancel := Canceler(token);
  }
}
