/**
 * The pipeline that owns the connections, the slot table and the queued
 * requests (`Pipeline`, `ConnectionState`, `Pipeline::new`, the `Sink`
 * methods `start_send` and `poll_flush` in src/lib.rs).
 *
 * What the futures and timers yield when polled, and whether a slot refresh
 * has finished, come from a `Network` object, read one poll at a time.  When
 * its recorded polls run out, everything polled is still pending.  Each
 * finished refresh comes with the cluster as that refresh found it.
 */
module Pipelines {
  import opened Wrappers
  import opened HashSlot
  import opened SlotMaps
  import opened Requests
  import opened Routing
  import opened Refresh

  /** The outside world as the pipeline sees it while polling. */
  class Network {
    /** Successive results of polling a request's future or timer. */
    var polls: seq<Event>
    /**
     * Successive answers to "has the slot refresh finished?": `None` while it
     * has not, otherwise the replies, PINGs and connects that refresh met.
     */
    var refreshPolls: seq<Option<Nodes>>
    /** The cluster as the last finished refresh met it; new connections for requests are made through it. */
    var nodes: Nodes

    constructor (polls: seq<Event>, refreshPolls: seq<Option<Nodes>>, nodes: Nodes)
      ensures this.polls == polls && this.refreshPolls == refreshPolls && this.nodes == nodes
    {
      this.polls := polls;
      this.refreshPolls := refreshPolls;
      this.nodes := nodes;
    }

    method NextPoll() returns (e: Event)
      modifies this
      ensures old(polls) == [] ==> e == NotReady && polls == []
      ensures old(polls) != [] ==> e == old(polls)[0] && polls == old(polls)[1..]
      ensures refreshPolls == old(refreshPolls) && nodes == old(nodes)
    {
      if polls == [] {
        e := NotReady;
      } else {
        e := polls[0];
        polls := polls[1..];
      }
    }

    method NextRefreshPoll() returns (finished: Option<Nodes>)
      modifies this
      ensures old(refreshPolls) == [] ==> finished.None? && refreshPolls == []
      ensures old(refreshPolls) != [] ==> finished == old(refreshPolls)[0] && refreshPolls == old(refreshPolls)[1..]
      ensures nodes == if finished.Some? then finished.value else old(nodes)
      ensures polls == old(polls)
    {
      if refreshPolls == [] {
        finished := None;
      } else {
        finished := refreshPolls[0];
        refreshPolls := refreshPolls[1..];
        if finished.Some? {
          nodes := finished.value;
        }
      }
    }
  }

  // ---------------------------------------------------------------------------
  // `Vec::swap_remove`

  /** The element at `i` is removed and the last element takes its place. */
  function SwapRemove<T>(s: seq<T>, i: nat): (r: seq<T>)
    requires i < |s|
    ensures |r| == |s| - 1
    ensures r[..i] == s[..i]
    ensures i < |r| ==> r[i] == s[|s| - 1] && r[i + 1..] == s[i + 1..|s| - 1]
  {
    if i == |s| - 1 then s[..i] else s[..i] + [s[|s| - 1]] + s[i + 1..|s| - 1]
  }

  /** `swap_remove` removes exactly one occurrence of the element at `i`. */
  lemma SwapRemoveMultiset<T>(s: seq<T>, i: nat)
    requires i < |s|
    ensures multiset(SwapRemove(s, i)) + multiset{s[i]} == multiset(s)
  {
    if i == |s| - 1 {
      assert s == s[..i] + [s[i]];
    } else {
      assert s == s[..i] + [s[i]] + s[i + 1..|s| - 1] + [s[|s| - 1]];
    }
  }

  ghost predicate Distinct<T>(s: seq<T>) {
    forall i, j :: 0 <= i < j < |s| ==> s[i] != s[j]
  }

  /** The position in `s` that position `k` of `SwapRemove(s, i)` comes from. */
  function SwapSource(n: nat, i: nat, k: nat): nat
    requires i < n
  {
    if k == i then n - 1 else k
  }

  lemma SwapRemoveSource<T>(s: seq<T>, i: nat)
    requires i < |s|
    ensures forall k :: 0 <= k < |s| - 1 ==>
      SwapSource(|s|, i, k) < |s| && SwapSource(|s|, i, k) != i && SwapRemove(s, i)[k] == s[SwapSource(|s|, i, k)]
  {
    var r := SwapRemove(s, i);
    forall k | 0 <= k < |s| - 1
      ensures SwapRemove(s, i)[k] == s[SwapSource(|s|, i, k)]
    {
      if k < i {
        assert r[k] == r[..i][k];
      } else if k > i {
        assert r[k] == r[i + 1..][k - i - 1];
      }
    }
  }

  /** Without repetitions, `swap_remove` leaves exactly the other elements, again without repetitions. */
  lemma SwapRemoveDistinct<T>(s: seq<T>, i: nat)
    requires i < |s| && Distinct(s)
    ensures Distinct(SwapRemove(s, i))
    ensures forall x :: x in SwapRemove(s, i) <==> x in s && x != s[i]
  {
    var r := SwapRemove(s, i);
    SwapRemoveSource(s, i);
    forall a, b | 0 <= a < b < |r| ensures r[a] != r[b] {
      assert SwapSource(|s|, i, a) != SwapSource(|s|, i, b);
    }
    forall x | x in s && x != s[i] ensures x in r {
      var j :| 0 <= j < |s| && s[j] == x;
      var k := if j == |s| - 1 then i else j;
      assert r[k] == x;
    }
  }

  // ---------------------------------------------------------------------------
  // The pipeline

  /** What is left of the recorded polls once one has been taken, if there was one. */
  function AfterPoll<T>(s: seq<T>): seq<T> {
    if s == [] then [] else s[1..]
  }

  function Min(a: int, b: int): int {
    if a <= b then a else b
  }

  /** `after` is what is left of the recorded polls `before` once some have been taken. */
  ghost predicate Suffix<T>(before: seq<T>, after: seq<T>) {
    |after| <= |before| && after == before[|before| - |after|..]
  }

  /** The last refresh poll taken said "not finished", or the record has run out. */
  ghost predicate LastRefreshPending(before: seq<Option<Nodes>>, after: seq<Option<Nodes>>) {
    Suffix(before, after) && (after == [] || (|after| < |before| && before[|before| - |after| - 1].None?))
  }

  /** Taking the first of the remaining polls, or none, leaves a suffix; the one taken precedes it. */
  lemma SuffixStep<T>(before: seq<T>, mid: seq<T>, after: seq<T>)
    requires Suffix(before, mid)
    requires after == mid || (mid != [] && after == mid[1..])
    ensures Suffix(before, after)
    ensures mid != [] && after == mid[1..] ==> before[|before| - |after| - 1] == mid[0]
  {
    if mid != [] && after == mid[1..] {
      assert after == before[|before| - |after|..];
    }
  }

  type Outcome = Result<(seq<Entry>, Connections), RedisError>

  /** For each view of the cluster, whether a corrected refresh from `taken` succeeds in it. */
  ghost function Verdicts(taken: Connections, views: seq<Nodes>): (r: seq<bool>)
    ensures |r| == |views| && forall k :: 0 <= k < |views| ==> r[k] == Refreshable(Corrected, taken, views[k])
  {
    seq(|views|, k requires 0 <= k < |views| => Refreshable(Corrected, taken, views[k]))
  }

  /** Each outcome is a success exactly when its verdict says so. */
  ghost predicate OutcomesMatch(outcomes: seq<Outcome>, verdicts: seq<bool>) {
    forall k :: 0 <= k < |outcomes| && k < |verdicts| ==> (outcomes[k].Success? <==> verdicts[k])
  }

  /** When every outcome failed and every verdict has its outcome, no verdict holds. */
  lemma NoVerdictHolds(outcomes: seq<Outcome>, verdicts: seq<bool>)
    requires OutcomesMatch(outcomes, verdicts) && |outcomes| == |verdicts|
    requires forall k :: 0 <= k < |outcomes| ==> outcomes[k].Failure?
    ensures true !in verdicts
  {
    forall k | 0 <= k < |verdicts|
      ensures !verdicts[k]
    {
      assert outcomes[k].Failure?;
    }
  }

  lemma OutcomesMatchAppend(outcomes: seq<Outcome>, outcome: Outcome, verdicts: seq<bool>)
    requires OutcomesMatch(outcomes, verdicts) && |outcomes| < |verdicts|
    requires outcome.Success? <==> verdicts[|outcomes|]
    ensures OutcomesMatch(outcomes + [outcome], verdicts)
  {
    var next := outcomes + [outcome];
    assert forall k :: 0 <= k < |outcomes| ==> next[k] == outcomes[k];
  }

  /** `ConnectionState`; a refresh in progress holds the connections it took. */
  datatype ConnectionState = PollComplete | Recover(taken: Connections)

  /** The outcome of `poll_flush`; `Panicked` is the panic of picking from no connections. */
  datatype Flush = FlushPending | FlushReady | Panicked

  class Pipeline {
    var connections: Connections
    var slots: seq<Entry>
    var state: ConnectionState
    var inFlight: seq<Request>
    const retries: Option<u32>

    /**
     * Each queued request appears once and still holds its sender; while a
     * refresh runs, the connections are with it and the pipeline has none;
     * the slot table is an ordered map.
     */
    ghost predicate Valid()
      reads this, inFlight
    {
      && (state.Recover? ==> connections == map[])
      && Ordered(slots)
      && Distinct(inFlight)
      && forall i :: 0 <= i < |inFlight| ==> inFlight[i].Valid() && inFlight[i].sender
    }

    /** The pipeline before its first refresh: no table, no requests. */
    constructor (connections: Connections, retries: Option<u32>)
      ensures Valid()
      ensures this.connections == connections && this.retries == retries
      ensures slots == [] && state == PollComplete && inFlight == []
    {
      this.connections := connections;
      this.retries := retries;
      slots := [];
      state := PollComplete;
      inFlight := [];
    }

    /**
     * `start_send`: queue the command with no retries, nothing excluded, no
     * future yet, and the slot of its key.  `parsed` is the command as the
     * RESP parser reads it.
     */
    method StartSend(cmd: seq<byte>, parsed: Option<Value>)
      requires Valid()
      modifies this
      ensures Valid()
      ensures |inFlight| == |old(inFlight)| + 1 && inFlight[..|old(inFlight)|] == old(inFlight)
      ensures var r := inFlight[|inFlight| - 1];
        && fresh(r) && r.cmd == cmd && r.slot == SlotForCommand(parsed) && r.maxRetries == retries
        && r.retry == 0 && r.excludes == {} && r.future == Idle && r.sender
      ensures connections == old(connections) && slots == old(slots) && state == old(state)
    {
      var r := new Request(cmd, SlotForCommand(parsed), retries);
      inFlight := inFlight + [r];
      assert inFlight[..|old(inFlight)|] == old(inFlight);
    }

    /** `Next::Done`: the request at `i`, which has been answered, leaves the list. */
    method Finish(i: nat)
      requires i < |inFlight| && Distinct(inFlight) && (state.Recover? ==> connections == map[]) && Ordered(slots)
      requires forall k :: 0 <= k < |inFlight| && k != i ==> inFlight[k].Valid() && inFlight[k].sender
      modifies this
      ensures Valid()
      ensures inFlight == SwapRemove(old(inFlight), i)
      ensures multiset(inFlight) + multiset{old(inFlight)[i]} == multiset(old(inFlight))
      ensures forall q :: q in inFlight <==> q in old(inFlight) && q != old(inFlight)[i]
      ensures connections == old(connections) && slots == old(slots) && state == old(state)
    {
      SwapRemoveMultiset(inFlight, i);
      SwapRemoveDistinct(inFlight, i);
      SwapRemoveSource(inFlight, i);
      inFlight := SwapRemove(inFlight, i);
    }

    /** `Next::TryNewConnection`: the request at `i` moves to the end of the list. */
    method MoveToEnd(i: nat)
      requires i < |inFlight| && Valid()
      modifies this
      ensures Valid()
      ensures inFlight == SwapRemove(old(inFlight), i) + [old(inFlight)[i]]
      ensures multiset(inFlight) == multiset(old(inFlight))
      ensures forall q :: q in inFlight <==> q in old(inFlight)
      ensures connections == old(connections) && slots == old(slots) && state == old(state)
    {
      var q := inFlight[i];
      SwapRemoveMultiset(inFlight, i);
      SwapRemoveDistinct(inFlight, i);
      SwapRemoveSource(inFlight, i);
      inFlight := SwapRemove(inFlight, i) + [q];
    }

    /** Give the request a future via `try_request`; `false` if there was no connection to pick. */
    method Route(q: Request, net: Network) returns (routed: bool)
      modifies q
      ensures routed <==> |connections| > 0
      ensures routed ==> q.future.Awaiting? && (q.future.addr in connections || q.slot.Some?)
      ensures routed && |q.excludes| > 0 && |q.excludes| < |connections| ==> q.future.addr !in q.excludes
      ensures routed && |q.excludes| == 0 && q.slot.Some? ==>
        exists c :: SlotTarget(slots, connections, q.slot.value, net.nodes.connect, (q.future.addr, c))
      ensures !routed ==> q.future == old(q.future)
      ensures q.retry == old(q.retry) && q.excludes == old(q.excludes) && q.sender == old(q.sender) && q.sent == old(q.sent)
    {
      var target := TryRequest(slots, connections, q.slot, q.excludes, net.nodes.connect);
      if target.None? {
        return false;
      }
      q.SetFuture(Awaiting(target.value.0));
      assert q.future.addr == target.value.0 && target.value == (q.future.addr, target.value.1);
      routed := true;
    }

    /**
     * One turn of `poll_flush`'s loop over the queued requests, at index `i`:
     * give the request a future if it has none, poll it, and act on the
     * outcome.  The requests before `i` are left alone.
     */
    method Step(i: nat, net: Network) returns (next: nat, error: Option<RedisError>, panicked: bool)
      requires Valid() && i < |inFlight|
      modifies this, inFlight[i], net
      ensures Valid()
      ensures connections == old(connections) && slots == old(slots) && state == old(state)
      ensures net.refreshPolls == old(net.refreshPolls)
      ensures forall q :: q in inFlight ==> q in old(inFlight)
      ensures forall q :: q in old(inFlight) && q !in inFlight ==> q.sent.Some?
      ensures i <= |inFlight| <= |old(inFlight)| && next <= |inFlight|
      ensures |net.polls| <= old(|net.polls|)
      ensures forall k :: 0 <= k < i ==> inFlight[k] == old(inFlight[k]) && inFlight[k].future == old(inFlight[k].future)
      ensures !panicked ==> |net.polls| < old(|net.polls|) || (next == i + 1 && |inFlight| == old(|inFlight|))
      ensures !panicked ==> next == i || next == i + 1
      ensures !panicked && error.None? && next == i + 1 ==> !inFlight[i].future.Idle?
      ensures !panicked && error.None? && next == i + 1 ==> inFlight == old(inFlight)
      ensures !panicked && next == i && |inFlight| == old(|inFlight|) ==> inFlight[|inFlight| - 1].future.Awaiting?
      ensures panicked ==> connections == map[]
      ensures !panicked ==> net.polls == AfterPoll(old(net.polls))
      ensures !panicked ==> old(|inFlight|) - i <= |inFlight| - next + 1
    {
      var q := inFlight[i];
      if q.future.Idle? {
        var routed := Route(q, net);
        if !routed {
          return i, None, true;
        }
      }
      next, error, panicked := Advance(i, net);
    }

    /** Poll the request at `i`, which has a future, and act on the outcome. */
    method Advance(i: nat, net: Network) returns (next: nat, error: Option<RedisError>, panicked: bool)
      requires Valid() && i < |inFlight| && !inFlight[i].future.Idle?
      modifies this, inFlight[i], net
      ensures Valid()
      ensures error.Some? ==> inFlight == old(inFlight) && inFlight[i].future == Idle && next == i + 1 && !panicked
      ensures |inFlight| < old(|inFlight|) ==> inFlight == SwapRemove(old(inFlight), i) && old(inFlight)[i].sent.Some?
      ensures next == i && |inFlight| == old(|inFlight|) ==> inFlight == SwapRemove(old(inFlight), i) + [old(inFlight)[i]]
      ensures connections == old(connections) && slots == old(slots) && state == old(state)
      ensures net.refreshPolls == old(net.refreshPolls)
      ensures forall q :: q in inFlight ==> q in old(inFlight)
      ensures forall q :: q in old(inFlight) && q !in inFlight ==> q.sent.Some?
      ensures i <= |inFlight| <= |old(inFlight)| && next <= |inFlight|
      ensures |net.polls| <= old(|net.polls|)
      ensures forall k :: 0 <= k < i ==> inFlight[k] == old(inFlight[k]) && inFlight[k].future == old(inFlight[k].future)
      ensures !panicked ==> |net.polls| < old(|net.polls|) || (next == i + 1 && |inFlight| == old(|inFlight|))
      ensures !panicked ==> next == i || next == i + 1
      ensures !panicked && error.None? && next == i + 1 ==> !inFlight[i].future.Idle?
      ensures !panicked && error.None? && next == i + 1 ==> inFlight == old(inFlight)
      ensures !panicked && next == i && |inFlight| == old(|inFlight|) ==> inFlight[|inFlight| - 1].future.Awaiting?
      ensures panicked ==> connections == map[]
      ensures net.polls == AfterPoll(old(net.polls))
      ensures !panicked ==> old(|inFlight|) - i <= |inFlight| - next + 1
    {
      var q := inFlight[i];
      var p := PollAt(i, net);
      error, panicked := None, false;
      match p
      case Pending =>
        next := i + 1;
      case Ready(Success(Done)) =>
        Finish(i);
        next := i;
      case Ready(Success(TryNewConnection)) =>
        var routed := Requeue(i, net);
        next := i;
        panicked := !routed;
      case Ready(Failure(err)) =>
        error := Some(err);
        q.SetFuture(Idle);
        next := i + 1;
    }

    /** `Next::TryNewConnection`: the request at `i` moves to the end of the list with a new future. */
    method Requeue(i: nat, net: Network) returns (routed: bool)
      requires Valid() && i < |inFlight|
      modifies this, inFlight[i]
      ensures Valid()
      ensures inFlight == SwapRemove(old(inFlight), i) + [old(inFlight)[i]]
      ensures forall q :: q in inFlight <==> q in old(inFlight)
      ensures forall k :: 0 <= k < |inFlight| - 1 ==> inFlight[k].future == old(inFlight[SwapSource(|inFlight|, i, k)].future)
      ensures routed <==> |connections| > 0
      ensures routed ==> inFlight[|inFlight| - 1].future.Awaiting?
      ensures connections == old(connections) && slots == old(slots) && state == old(state)
    {
      var q := inFlight[i];
      SwapRemoveSource(inFlight, i);
      MoveToEnd(i);
      routed := Route(q, net);
    }

    /** Poll the request at `i` with what the network yields next; the other requests are left alone. */
    method PollAt(i: nat, net: Network) returns (p: Poll)
      requires Valid() && i < |inFlight| && !inFlight[i].future.Idle?
      modifies inFlight[i], net
      ensures Distinct(inFlight) && inFlight[i].Valid()
      ensures forall k :: 0 <= k < |inFlight| && k != i ==> inFlight[k].Valid() && inFlight[k].sender
      ensures forall k :: 0 <= k < |inFlight| && k != i ==> inFlight[k].future == old(inFlight[k].future)
      ensures p == Ready(Success(Done)) <==> inFlight[i].sent.Some?
      ensures p != Ready(Success(Done)) ==> inFlight[i].sender
      ensures p.Pending? ==> !inFlight[i].future.Idle?
      ensures net.refreshPolls == old(net.refreshPolls)
      ensures |net.polls| < old(|net.polls|) || (p.Pending? && net.polls == old(net.polls))
      ensures net.polls == AfterPoll(old(net.polls))
    {
      var q := inFlight[i];
      var e := net.NextPoll();
      p := q.PollRequest(e, |connections|);
    }

    /**
     * One pass of `poll_flush`'s `PollComplete` branch over the queued
     * requests: a finished request leaves the list, one to be tried again
     * moves to the end with a new future, one asking for a slot refresh
     * stays with no future and its error is kept.
     */
    method PollInFlight(net: Network) returns (error: Option<RedisError>, panicked: bool)
      requires Valid()
      modifies this, inFlight, net
      ensures Valid()
      ensures connections == old(connections) && slots == old(slots) && state == old(state)
      ensures net.refreshPolls == old(net.refreshPolls)
      ensures forall q :: q in inFlight ==> q in old(inFlight)
      ensures forall q :: q in old(inFlight) && q !in inFlight ==> q.sent.Some?
      ensures !panicked && error.None? ==> forall k :: 0 <= k < |inFlight| ==> !inFlight[k].future.Idle?
      ensures panicked ==> connections == map[]
      ensures |net.polls| <= old(|net.polls|)
      ensures !panicked ==> old(|net.polls|) - |net.polls| >= Min(|old(inFlight)|, old(|net.polls|))
    {
      error, panicked := None, false;
      var i := 0;
      while i < |inFlight|
        invariant Valid()
        invariant 0 <= i <= |inFlight|
        invariant connections == old(connections) && slots == old(slots) && state == old(state)
        invariant net.refreshPolls == old(net.refreshPolls)
        invariant forall q :: q in inFlight ==> q in old(inFlight)
        invariant forall q :: q in old(inFlight) && q !in inFlight ==> q.sent.Some?
        invariant error.None? ==> forall k :: 0 <= k < i ==> !inFlight[k].future.Idle?
        invariant |net.polls| <= old(|net.polls|)
        invariant old(|net.polls|) - |net.polls| >= Min(|old(inFlight)| - (|inFlight| - i), old(|net.polls|))
        decreases |net.polls|, |inFlight| - i
      {
        var next, err, stop := Step(i, net);
        if stop {
          return error, true;
        }
        if err.Some? {
          error := err;
        }
        i := next;
      }
    }

    /** Start a slot refresh: it takes the connections out of the pipeline (`mem::replace`). */
    method StartRefresh()
      modifies this
      ensures state == Recover(old(connections)) && connections == map[]
      ensures slots == old(slots) && inFlight == old(inFlight)
    {
      state := Recover(connections);
      connections := map[];
    }

    /**
     * A failed refresh, as written: a new refresh is started from the
     * pipeline's connections, which the failed one had already taken.
     */
    method RestartRefreshAsWritten(taken: Connections)
      requires state == Recover(taken)
      modifies this
      ensures state == Recover(old(connections)) && connections == map[]
      ensures slots == old(slots) && inFlight == old(inFlight)
    {
      StartRefresh();
    }

    /** A failed refresh, corrected: the new refresh starts from the connections the failed one took. */
    method RestartRefresh(taken: Connections)
      requires state == Recover(taken)
      modifies this
      ensures state == Recover(taken) && connections == map[]
      ensures slots == old(slots) && inFlight == old(inFlight)
    {
      connections := taken;
      StartRefresh();
    }

    /**
     * The `Recover` branch as written, with refreshes that finish at once and
     * meet the cluster as `views` says in turn: once the first has failed,
     * every later one fails with "No connections to refresh slots from",
     * whatever the cluster answers, and the pipeline never leaves `Recover`.
     */
    method RecoverAsWritten(views: seq<Nodes>) returns (outcomes: seq<Outcome>)
      requires Valid() && state.Recover? && |views| > 0
      requires !Refreshable(AsWritten, state.taken, views[0])
      modifies this
      ensures Valid() && inFlight == old(inFlight)
      ensures |outcomes| == |views| && outcomes[0].Failure?
      ensures forall n :: 0 < n < |outcomes| ==> outcomes[n] == Failure(NoConnections)
      ensures state == Recover(map[]) && connections == map[] && slots == old(slots)
    {
      outcomes := [];
      var n := 0;
      while n < |views|
        invariant 0 <= n <= |views| && |outcomes| == n
        invariant Valid() && state.Recover? && inFlight == old(inFlight) && slots == old(slots)
        invariant n == 0 ==> state == old(state)
        invariant n > 0 ==> state == Recover(map[]) && outcomes[0].Failure?
        invariant forall k :: 0 < k < n ==> outcomes[k] == Failure(NoConnections)
      {
        var outcome := RefreshSlots(AsWritten, state.taken, views[n]);
        ApplyRefresh(AsWritten, state.taken, outcome);
        outcomes := outcomes + [outcome];
        n := n + 1;
      }
    }

    /**
     * The `Recover` branch corrected, with refreshes that finish at once and
     * meet the cluster as `views` says in turn: every refresh samples the
     * connections the first one took, so the pipeline recovers with the first
     * view in which one of them answers with a table.
     */
    method RecoverCorrected(views: seq<Nodes>) returns (outcomes: seq<Outcome>)
      requires Valid() && state.Recover?
      modifies this
      ensures Valid() && inFlight == old(inFlight)
      ensures |outcomes| <= |views| && OutcomesMatch(outcomes, Verdicts(old(state).taken, views))
      ensures forall n :: 0 <= n < |outcomes| - 1 ==> outcomes[n].Failure?
      ensures state == PollComplete <==> true in Verdicts(old(state).taken, views)
      ensures state.Recover? ==> state == old(state) && slots == old(slots) && |outcomes| == |views|
    {
      var taken := state.taken;
      outcomes := [];
      var n := 0;
      while n < |views| && state.Recover?
        invariant 0 <= n <= |views| && |outcomes| == n
        invariant Valid() && inFlight == old(inFlight)
        invariant state == Recover(taken) || state == PollComplete
        invariant OutcomesMatch(outcomes, Verdicts(taken, views))
        invariant state.Recover? ==> slots == old(slots) && forall k :: 0 <= k < n ==> outcomes[k].Failure?
        invariant state == PollComplete ==> n > 0 && outcomes[n - 1].Success? && forall k :: 0 <= k < n - 1 ==> outcomes[k].Failure?
      {
        var outcome := RecoverRound(taken, views[n]);
        OutcomesMatchAppend(outcomes, outcome, Verdicts(taken, views));
        outcomes := outcomes + [outcome];
        n := n + 1;
      }
      if state.Recover? {
        NoVerdictHolds(outcomes, Verdicts(taken, views));
      }
    }

    /** One corrected refresh from `taken`, finished at once in the given view, and its result applied. */
    method RecoverRound(taken: Connections, view: Nodes) returns (outcome: Outcome)
      requires Valid() && state == Recover(taken)
      modifies this
      ensures Valid() && inFlight == old(inFlight)
      ensures outcome.Success? <==> Refreshable(Corrected, taken, view)
      ensures outcome.Success? ==> state == PollComplete
      ensures outcome.Failure? ==> state == Recover(taken) && slots == old(slots)
    {
      outcome := RefreshSlots(Corrected, taken, view);
      ApplyRefresh(Corrected, taken, outcome);
    }

    /**
     * The `Recover` branch of `poll_flush`: if the refresh has finished, a
     * new table and connections on success, a new refresh on failure.
     */
    method PollRecover(v: Variant, net: Network) returns (pending: bool)
      requires Valid() && state.Recover?
      modifies this, net
      ensures Valid() && inFlight == old(inFlight) && net.polls == old(net.polls)
      ensures pending ==> state == old(state) && slots == old(slots) && connections == old(connections)
      ensures pending ==> (old(net.refreshPolls) == [] && net.refreshPolls == [])
                          || (old(net.refreshPolls) != [] && old(net.refreshPolls)[0].None? && net.refreshPolls == old(net.refreshPolls)[1..])
      ensures !pending ==> old(net.refreshPolls) != [] && old(net.refreshPolls)[0] == Some(net.nodes)
                           && net.refreshPolls == old(net.refreshPolls)[1..]
      ensures !pending && Refreshable(v, old(state).taken, net.nodes) ==>
        state == PollComplete && Refreshed(v, old(state).taken, net.nodes, slots, connections)
      ensures !pending && !Refreshable(v, old(state).taken, net.nodes) ==>
        state == (if v == Corrected then old(state) else Recover(map[])) && connections == map[] && slots == old(slots)
    {
      var taken := state.taken;
      var finished := net.NextRefreshPoll();
      if finished.None? {
        return true;
      }
      FinishRefresh(v, taken, finished.value);
      pending := false;
    }

    /** The refresh from `taken` has finished in the cluster `nodes`: its outcome is applied. */
    method FinishRefresh(v: Variant, taken: Connections, nodes: Nodes)
      requires Valid() && state == Recover(taken)
      modifies this
      ensures Valid() && inFlight == old(inFlight)
      ensures Refreshable(v, taken, nodes) ==> state == PollComplete && Refreshed(v, taken, nodes, slots, connections)
      ensures !Refreshable(v, taken, nodes) ==>
        state == (if v == Corrected then Recover(taken) else Recover(map[])) && connections == map[] && slots == old(slots)
    {
      var outcome := RefreshSlots(v, taken, nodes);
      ApplyRefresh(v, taken, outcome);
    }

    /**
     * A refresh has finished: install its result, or start a new refresh
     * after a failure, from the pipeline's own (emptied) connection map as
     * written, from the connections the failed refresh took when corrected.
     */
    method ApplyRefresh(v: Variant, taken: Connections, outcome: Outcome)
      requires state == Recover(taken)
      requires outcome.Success? ==> Ordered(outcome.value.0)
      modifies this
      ensures outcome.Success? ==> slots == outcome.value.0 && connections == outcome.value.1 && state == PollComplete
      ensures outcome.Failure? ==> connections == map[] && slots == old(slots)
      ensures outcome.Failure? && v == Corrected ==> state == Recover(taken)
      ensures outcome.Failure? && v == AsWritten ==> state == Recover(old(connections))
      ensures inFlight == old(inFlight)
    {
      if outcome.Success? {
        Install(outcome.value.0, outcome.value.1);
      } else if v == Corrected {
        RestartRefresh(taken);
      } else {
        RestartRefreshAsWritten(taken);
      }
    }

    /** A finished refresh: its table and connections become the pipeline's. */
    method Install(table: seq<Entry>, rebuilt: Connections)
      requires Ordered(table)
      modifies this
      ensures slots == table && connections == rebuilt && state == PollComplete
      ensures inFlight == old(inFlight)
    {
      slots := table;
      connections := rebuilt;
      state := PollComplete;
    }

    /**
     * The `PollComplete` branch of `poll_flush`: one pass over the queued
     * requests; after an error a slot refresh starts (`None`), otherwise the
     * flush is ready when no request is left and pending while some wait.
     */
    method FlushRequests(net: Network) returns (error: Option<RedisError>, r: Option<Flush>)
      requires Valid() && state == PollComplete
      modifies this, inFlight, net
      ensures Valid() && slots == old(slots) && net.refreshPolls == old(net.refreshPolls)
      ensures |net.polls| <= old(|net.polls|)
      ensures r != Some(Panicked) ==> old(|net.polls|) - |net.polls| >= Min(|old(inFlight)|, old(|net.polls|))
      ensures forall q :: q in inFlight ==> q in old(inFlight)
      ensures forall q :: q in old(inFlight) && q !in inFlight ==> q.sent.Some?
      ensures r == Some(Panicked) ==> state == PollComplete && connections == map[]
      ensures r != Some(Panicked) ==> (r.None? <==> error.Some?)
      ensures r.None? ==> state == Recover(old(connections)) && connections == map[]
      ensures r.Some? && r.value != Panicked ==>
        && state == PollComplete && connections == old(connections)
        && (r.value == FlushReady <==> inFlight == [])
        && forall k :: 0 <= k < |inFlight| ==> !inFlight[k].future.Idle?
    {
      var panicked;
      error, panicked := PollInFlight(net);
      if panicked {
        return error, Some(Panicked);
      }
      if error.Some? {
        StartRefresh();
        return error, None;
      }
      r := Some(if inFlight == [] then FlushReady else FlushPending);
    }

    /**
     * `poll_flush`: alternate between refreshing the slot table (`Recover`)
     * and polling the queued requests (`PollComplete`) until the requests are
     * all answered (ready) or something is still pending.
     */
    method PollFlush(v: Variant, net: Network) returns (r: Flush)
      requires Valid()
      modifies this, inFlight, net
      ensures Valid()
      ensures forall q :: q in inFlight ==> q in old(inFlight)
      ensures forall q :: q in old(inFlight) && q !in inFlight ==> q.sent.Some?
      ensures r == FlushReady ==> inFlight == [] && state == PollComplete
      ensures r == FlushPending ==> inFlight != [] || state.Recover?
      ensures r == FlushPending && state.PollComplete? ==> forall k :: 0 <= k < |inFlight| ==> !inFlight[k].future.Idle?
      ensures r == FlushPending && state.Recover? ==> LastRefreshPending(old(net.refreshPolls), net.refreshPolls)
      ensures r == Panicked ==> state == PollComplete && connections == map[]
      ensures old(state).PollComplete? && r != Panicked ==>
        old(|net.polls|) - |net.polls| >= Min(|old(inFlight)|, old(|net.polls|))
    {
      ghost var passed := false;
      while true
        invariant Valid()
        invariant forall q :: q in inFlight ==> q in old(inFlight)
        invariant forall q :: q in old(inFlight) && q !in inFlight ==> q.sent.Some?
        invariant Suffix(old(net.refreshPolls), net.refreshPolls)
        invariant |net.polls| <= old(|net.polls|)
        invariant old(state).PollComplete? && !passed ==>
          state == old(state) && inFlight == old(inFlight) && net.polls == old(net.polls)
        invariant old(state).PollComplete? && passed ==>
          old(|net.polls|) - |net.polls| >= Min(|old(inFlight)|, old(|net.polls|))
        decreases |net.refreshPolls|, if state.PollComplete? then 1 else 0
      {
        if state.Recover? {
          var before := net.refreshPolls;
          var pending := PollRecover(v, net);
          SuffixStep(old(net.refreshPolls), before, net.refreshPolls);
          if pending {
            return FlushPending;
          }
        } else {
          var error, done := FlushRequests(net);
          passed := true;
          if done.Some? {
            return done.value;
          }
        }
      }
    }
  }

  /**
   * `Pipeline::new` after the initial connections are made: the first slot
   * refresh must succeed, and its table and connections become the
   * pipeline's.
   */
  method NewPipeline(v: Variant, initial: Connections, retries: Option<u32>, nodes: Nodes) returns (r: Result<Pipeline, RedisError>)
    ensures r.Success? <==> Refreshable(v, initial, nodes)
    ensures r.Success? ==> fresh(r.value) && r.value.Valid() && r.value.retries == retries
    ensures r.Success? ==> r.value.state == PollComplete && r.value.inFlight == []
    ensures r.Success? ==> Refreshed(v, initial, nodes, r.value.slots, r.value.connections)
    ensures |initial| == 0 ==> r == Failure(NoConnections)
    ensures r.Failure? && |initial| > 0 ==> FailedWith(v, initial, nodes, r.error)
  {
    var outcome := RefreshSlots(v, initial, nodes);
    if outcome.Failure? {
      return Failure(outcome.error);
    }
    var p := new Pipeline(outcome.value.1, retries);
    p.Install(outcome.value.0, outcome.value.1);
    r := Success(p);
  }
}
