/**
 * One queued command and its retry state machine (`Request`, `RequestInfo`,
 * `Request::poll_request` and `Request::respond` in src/lib.rs).
 *
 * What a polled future or timer yields is an input (`Event`); the decision
 * taken on an error is the pure function `OnError`, which the method
 * `Request.PollRequest` follows.
 */
module Requests {
  import opened Wrappers
  import opened HashSlot

  type u32 = x: int | 0 <= x < 0x1_0000_0000
  const MaxU32: u32 := 0xFFFF_FFFF

  /** `DEFAULT_RETRIES`. */
  const DefaultRetries: u32 := 16

  /** An error as far as the client inspects it: its `extension_error_code` and its text. */
  datatype RedisError = RedisError(code: Option<string>, detail: string)

  /** `u32::saturating_add(1)`. */
  function SaturatingIncrement(x: u32): (r: u32)
    ensures x < MaxU32 ==> r == x + 1
    ensures x == MaxU32 ==> r == MaxU32
  {
    if x < MaxU32 then x + 1 else x
  }

  function Pow2(n: nat): (r: nat)
    ensures r >= 1
  {
    if n == 0 then 1 else 2 * Pow2(n - 1)
  }

  function Clamp(x: int, lo: int, hi: int): int {
    if x < lo then lo else if x > hi then hi else x
  }

  /** The back-off in milliseconds: `2u64.pow(retry.max(7).min(16)) * 10`. */
  function Backoff(retry: u32): (ms: nat) {
    Pow2(Clamp(retry, 7, 16)) * 10
  }

  lemma {:induction false} Pow2Monotone(a: nat, b: nat)
    requires a <= b
    ensures Pow2(a) <= Pow2(b)
    decreases b
  {
    if a < b {
      Pow2Monotone(a, b - 1);
    }
  }

  /** The back-off never falls below 1.28 s nor exceeds 655.36 s, and first grows with the retry count. */
  lemma BackoffBounds(retry: u32)
    ensures 1280 <= Backoff(retry) <= 655360
    ensures retry <= 7 ==> Backoff(retry) == 1280
    ensures retry >= 16 ==> Backoff(retry) == 655360
  {
    Pow2Ends();
    Pow2Monotone(7, Clamp(retry, 7, 16));
    Pow2Monotone(Clamp(retry, 7, 16), 16);
  }

  lemma Pow2Ends()
    ensures Pow2(7) == 128 && Pow2(16) == 65536
  {
  }

  /** Between 7 and 16 retries each retry doubles the back-off. */
  lemma BackoffDoubles(retry: u32)
    requires 7 <= retry < 16
    ensures Backoff(retry + 1) == 2 * Backoff(retry)
  {
  }

  /** More retries never mean a shorter back-off. */
  lemma BackoffMonotone(a: u32, b: u32)
    requires a <= b
    ensures Backoff(a) <= Backoff(b)
  {
    Pow2Monotone(Clamp(a, 7, 16), Clamp(b, 7, 16));
  }

  // ---------------------------------------------------------------------------
  // The retry policy

  /** What `poll_request` does with a failed attempt. */
  datatype Reaction =
    | Deliver           // hand the error to the caller; the request is done
    | Refresh           // return the error so that the pipeline refreshes its slots
    | Sleep(ms: nat)    // wait, then try again
    | TryAnother        // try again on a connection not yet excluded

  datatype Decision = Decision(reaction: Reaction, retry: u32, excludes: set<string>)

  predicate IsRedirect(code: Option<string>) {
    code == Some("MOVED") || code == Some("ASK")
  }

  predicate IsBusy(code: Option<string>) {
    code == Some("TRYAGAIN") || code == Some("CLUSTERDOWN")
  }

  /**
   * The reaction of a request that has been retried `retry` times to an error
   * with the given code from node `addr`, and its new retry count and
   * exclusion set.
   */
  function OnError(retry: u32, maxRetries: Option<u32>, code: Option<string>, addr: string,
                   excludes: set<string>, connectionsLen: nat): Decision
  {
    if maxRetries.Some? && retry == maxRetries.value then Decision(Deliver, retry, excludes)
    else
      var next := SaturatingIncrement(retry);
      if IsRedirect(code) then Decision(Refresh, next, {})
      else if IsBusy(code) then Decision(Sleep(Backoff(next)), next, {})
      else
        var grown := excludes + {addr};
        if |grown| >= connectionsLen then Decision(Deliver, next, grown) else Decision(TryAnother, next, grown)
  }

  /** Once the retry count reaches the limit, any error is delivered and nothing else changes. */
  lemma CutOff(retry: u32, m: u32, code: Option<string>, addr: string, excludes: set<string>, n: nat)
    requires retry == m
    ensures OnError(retry, Some(m), code, addr, excludes, n) == Decision(Deliver, retry, excludes)
  {
  }

  /** Below the limit (or without one) every error counts one more retry. */
  lemma RetryCounted(retry: u32, maxRetries: Option<u32>, code: Option<string>, addr: string,
                     excludes: set<string>, n: nat)
    requires maxRetries.None? || retry != maxRetries.value
    ensures OnError(retry, maxRetries, code, addr, excludes, n).retry == SaturatingIncrement(retry)
  {
  }

  /** A redirection (MOVED, ASK) below the limit asks for a slot refresh and forgets the excluded nodes. */
  lemma RedirectRefreshes(retry: u32, maxRetries: Option<u32>, code: Option<string>, addr: string,
                          excludes: set<string>, n: nat)
    requires maxRetries.None? || retry != maxRetries.value
    requires IsRedirect(code)
    ensures OnError(retry, maxRetries, code, addr, excludes, n).reaction == Refresh
    ensures OnError(retry, maxRetries, code, addr, excludes, n).excludes == {}
  {
  }

  /** A busy cluster (TRYAGAIN, CLUSTERDOWN) below the limit means waiting 1.28 s to 655.36 s, forgetting the excluded nodes. */
  lemma BusyBacksOff(retry: u32, maxRetries: Option<u32>, code: Option<string>, addr: string,
                     excludes: set<string>, n: nat)
    requires maxRetries.None? || retry != maxRetries.value
    requires IsBusy(code)
    ensures var d := OnError(retry, maxRetries, code, addr, excludes, n);
      && d.reaction == Sleep(Backoff(SaturatingIncrement(retry)))
      && d.excludes == {}
      && 1280 <= d.reaction.ms <= 655360
  {
    BackoffBounds(SaturatingIncrement(retry));
  }

  /**
   * Any other error excludes the node it came from; the request gives up
   * exactly when the excluded nodes are at least as many as the connections.
   */
  lemma OtherErrorExcludes(retry: u32, maxRetries: Option<u32>, code: Option<string>, addr: string,
                           excludes: set<string>, n: nat)
    requires maxRetries.None? || retry != maxRetries.value
    requires !IsRedirect(code) && !IsBusy(code)
    ensures var d := OnError(retry, maxRetries, code, addr, excludes, n);
      && d.excludes == excludes + {addr}
      && (d.reaction == Deliver <==> |excludes + {addr}| >= n)
      && (d.reaction == TryAnother <==> |excludes + {addr}| < n)
  {
  }

  /** The error reaches the caller only at the retry limit or when every connection is excluded. */
  lemma DeliverOnlyWhenExhausted(retry: u32, maxRetries: Option<u32>, code: Option<string>, addr: string,
                                 excludes: set<string>, n: nat)
    ensures OnError(retry, maxRetries, code, addr, excludes, n).reaction == Deliver <==>
      (maxRetries.Some? && retry == maxRetries.value)
      || (!IsRedirect(code) && !IsBusy(code) && |excludes + {addr}| >= n)
  {
  }

  /** A failed attempt: the node it went to and the error it returned. */
  datatype Failed = Failed(addr: string, code: Option<string>)

  /** Feeding the errors in turn to the policy, one of them is delivered to the caller. */
  ghost predicate EventuallyDelivered(retry: u32, maxRetries: Option<u32>, excludes: set<string>,
                                      errors: seq<Failed>, n: nat)
    decreases |errors|
  {
    |errors| > 0 &&
    var d := OnError(retry, maxRetries, errors[0].code, errors[0].addr, excludes, n);
    d.reaction == Deliver || EventuallyDelivered(d.retry, maxRetries, d.excludes, errors[1..], n)
  }

  /**
   * With a limit of `m` retries, a request that has been retried `retry <= m`
   * times delivers an error after at most `m - retry + 1` more failures,
   * whatever they are.
   */
  lemma {:induction false} RetriesBounded(retry: u32, m: u32, excludes: set<string>, errors: seq<Failed>, n: nat)
    requires retry <= m
    requires |errors| >= m - retry + 1
    ensures EventuallyDelivered(retry, Some(m), excludes, errors, n)
    decreases m - retry
  {
    var d := OnError(retry, Some(m), errors[0].code, errors[0].addr, excludes, n);
    if retry < m {
      assert d.retry == retry + 1;
      if d.reaction != Deliver {
        RetriesBounded(d.retry, m, d.excludes, errors[1..], n);
      }
    }
  }

  // ---------------------------------------------------------------------------
  // The request object

  /** `RequestState`: no future yet, a pending attempt on a node, or a timer. */
  datatype RequestState = Idle | Awaiting(addr: string) | Delay(ms: nat)

  /** What polling the request's future or timer yields this time. */
  datatype Event = NotReady | TimerFired | Completed(result: Result<Value, RedisError>)

  /** `Next`. */
  datatype Next = TryNewConnection | Done

  /** `Poll<Result<Next, RedisError>>`. */
  datatype Poll = Pending | Ready(result: Result<Next, RedisError>)

  class Request {
    var retry: u32
    const maxRetries: Option<u32>
    /** The oneshot sender is still held (`sender.is_some()`). */
    var sender: bool
    /** What has been sent through the oneshot sender, if anything. */
    var sent: Option<Result<Value, RedisError>>
    /** The packed command. */
    const cmd: seq<byte>
    const slot: Option<nat>
    var excludes: set<string>
    var future: RequestState

    /** The sender is held exactly as long as nothing has been sent. */
    ghost predicate Valid()
      reads this
    {
      sender <==> sent.None?
    }

    /** The request `start_send` builds: no retries yet, nothing excluded, no future. */
    constructor (cmd: seq<byte>, slot: Option<nat>, maxRetries: Option<u32>)
      ensures Valid() && sender
      ensures this.cmd == cmd && this.slot == slot && this.maxRetries == maxRetries
      ensures retry == 0 && excludes == {} && future == Idle
    {
      this.cmd := cmd;
      this.slot := slot;
      this.maxRetries := maxRetries;
      retry := 0;
      sender := true;
      sent := None;
      excludes := {};
      future := Idle;
    }

    /** `respond`: the sender is used once; a second use would panic. */
    method Respond(msg: Result<Value, RedisError>)
      requires Valid() && sender
      modifies this
      ensures Valid() && !sender && sent == Some(msg)
      ensures retry == old(retry) && excludes == old(excludes) && future == old(future)
    {
      sender := false;
      sent := Some(msg);
    }

    /** The pipeline gives the request a new attempt or clears it. */
    method SetFuture(f: RequestState)
      modifies this
      ensures future == f
      ensures retry == old(retry) && excludes == old(excludes) && sender == old(sender) && sent == old(sent)
    {
      future := f;
    }

    /**
     * `poll_request`.  A timer that fires means trying again; a reply is sent
     * to the caller; an error is handled as `OnError` decides.  After a busy
     * error the new timer is polled at once and, being at least 1.28 s long,
     * is not ready yet.
     */
    method PollRequest(event: Event, connectionsLen: nat) returns (p: Poll)
      requires Valid() && sender
      requires !future.Idle?
      modifies this
      ensures Valid()
      ensures old(future).Delay? ==>
        && p == (if event.TimerFired? then Ready(Success(TryNewConnection)) else Pending)
        && retry == old(retry) && excludes == old(excludes) && future == old(future) && sender
      ensures old(future).Awaiting? && !event.Completed? ==>
        p == Pending && retry == old(retry) && excludes == old(excludes) && future == old(future) && sender
      ensures old(future).Awaiting? && event.Completed? && event.result.Success? ==>
        && p == Ready(Success(Done)) && !sender && sent == Some(event.result)
        && retry == old(retry) && excludes == old(excludes) && future == old(future)
      ensures old(future).Awaiting? && event.Completed? && event.result.Failure? ==>
        var d := OnError(old(retry), maxRetries, event.result.error.code, old(future).addr, old(excludes), connectionsLen);
        && retry == d.retry && excludes == d.excludes
        && (d.reaction.Deliver? ==> p == Ready(Success(Done)) && !sender && sent == Some(event.result) && future == old(future))
        && (d.reaction.Refresh? ==> p == Ready(Failure(event.result.error)) && sender && future == old(future))
        && (d.reaction.Sleep? ==> p == Pending && sender && future == Delay(d.reaction.ms))
        && (d.reaction.TryAnother? ==> p == Ready(Success(TryNewConnection)) && sender && future == old(future))
    {
      if future.Delay? {
        p := if event.TimerFired? then Ready(Success(TryNewConnection)) else Pending;
        return;
      }
      if !event.Completed? {
        return Pending;
      }
      match event.result
      case Success(item) =>
        Respond(Success(item));
        p := Ready(Success(Done));
      case Failure(err) =>
        if maxRetries.Some? && retry == maxRetries.value {
          Respond(Failure(err));
          return Ready(Success(Done));
        }
        retry := SaturatingIncrement(retry);
        if IsRedirect(err.code) {
          excludes := {};
          return Ready(Failure(err));
        } else if IsBusy(err.code) {
          excludes := {};
          future := Delay(Backoff(retry));
          return Pending;
        }
        excludes := excludes + {future.addr};
        if |excludes| >= connectionsLen {
          Respond(Failure(err));
          return Ready(Success(Done));
        }
        p := Ready(Success(TryNewConnection));
    }
  }
}
