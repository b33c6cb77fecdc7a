/**
 * Refreshing the slot table (`Pipeline::refresh_slots` in src/lib.rs).
 *
 * Every connection is a sample; the samples are asked for `CLUSTER SLOTS` in
 * turn until one reply builds a valid table.  The connection map is then
 * rebuilt so that it holds exactly the masters of that table that could be
 * reached.  The replies and the outcomes of PING and of connecting are
 * inputs (`Nodes`).
 */
module Refresh {
  import opened Wrappers
  import opened HashSlot
  import ClusterSlots
  import opened SlotMaps
  import opened Requests
  import opened Routing

  /** What the cluster answers: per connection its `CLUSTER SLOTS` reply, per connection whether PING succeeds, per address the connection made to it. */
  datatype Nodes = Nodes(
    slotsReply: Conn -> Result<Value, RedisError>,
    pingOk: Conn -> bool,
    connect: string -> Option<Conn>)

  const NoConnections := RedisError(None, "No connections to refresh slots from")

  /** The `ResponseError` "Slot refresh error." of `build_slot_map`. */
  function SlotRefreshError(e: SlotError): RedisError {
    match e
    case Overlapping(_, _, _) => RedisError(None, "Slot refresh error: received overlapping slots")
    case Lacks(_) => RedisError(None, "Slot refresh error: lacks slots")
  }

  /**
   * Which program is modelled: the source as written (`build_slot_map` with
   * its 16-bit running end, a failed refresh restarted from the emptied
   * connection map) or the corrected one (ranges must really tile the slot
   * space, a failed refresh is restarted from the connections it took).
   */
  datatype Variant = AsWritten | Corrected

  /** The ranges of a reply, sorted by start as `build_slot_map` sorts them. */
  function SortedSlots(value: Value): seq<ClusterSlots.Slot> {
    SortByStart(ClusterSlots.ReplySlots(value))
  }

  /** `build_slot_map` of the variant. */
  function Build(v: Variant, slots: seq<ClusterSlots.Slot>): Result<seq<Entry>, SlotError> {
    match v
    case AsWritten => BuildSlotMapAsWritten(slots)
    case Corrected => BuildSlotMap(slots)
  }

  /** Both variants build the table of ranges that tile the slot space; each accepts what its check lets through. */
  lemma BuildSpec(v: Variant, slots: seq<ClusterSlots.Slot>)
    ensures Tiles(SortByStart(slots)) ==> Build(v, slots) == Success(MasterPairs(SortByStart(slots)))
    ensures v == Corrected ==> (Build(v, slots).Success? <==> Tiles(SortByStart(slots)))
    ensures v == AsWritten ==> (Build(v, slots).Success? <==> AcceptedAsWritten(SortByStart(slots)))
    ensures v == AsWritten && Build(v, slots).Success? ==> Build(v, slots).value == Collect(MasterPairs(SortByStart(slots)))
    ensures Build(v, slots).Success? ==> Ordered(Build(v, slots).value)
  {
    BuildSlotMapSpec(slots);
    BuildSlotMapAsWrittenSpec(slots);
    if Tiles(SortByStart(slots)) {
      AsWrittenAgreesWhenTiled(slots);
      TilesEndsIncrease(SortByStart(slots), 0);
    }
  }

  /**
   * `get_slots(conn).and_then(build_slot_map)` given the node's reply.  A
   * reply whose ranges tile the slot space gives the map from each range's
   * end to its master in both variants; as written, some replies that do not
   * tile it are accepted too.
   */
  function SampleTable(v: Variant, reply: Result<Value, RedisError>): (r: Result<seq<Entry>, RedisError>)
    ensures reply.Failure? ==> r == Failure(reply.error)
    ensures reply.Success? && Tiles(SortedSlots(reply.value)) ==> r == Success(MasterPairs(SortedSlots(reply.value)))
    ensures v == Corrected ==> (r.Success? <==> reply.Success? && Tiles(SortedSlots(reply.value)))
    ensures v == AsWritten ==> (r.Success? <==> reply.Success? && AcceptedAsWritten(SortedSlots(reply.value)))
    ensures v == AsWritten && r.Success? ==> r.value == Collect(MasterPairs(SortedSlots(reply.value)))
    ensures r.Success? ==> Ordered(r.value)
  {
    match reply
    case Failure(err) => Failure(err)
    case Success(value) =>
      var slots := ClusterSlots.ReplySlots(value);
      BuildSpec(v, slots);
      match Build(v, slots)
      case Success(table) => Success(table)
      case Failure(e) => Failure(SlotRefreshError(e))
  }

  /** The `take_while`: the results up to and including the first success. */
  function TakeThroughSuccess(results: seq<Result<seq<Entry>, RedisError>>): (r: seq<Result<seq<Entry>, RedisError>>)
    ensures |r| <= |results| && r == results[..|r|]
    ensures forall j :: 0 <= j < |r| - 1 ==> r[j].Failure?
    ensures |r| < |results| ==> |r| > 0 && r[|r| - 1].Success?
    ensures |results| > 0 ==> |r| > 0
    decreases |results|
  {
    if |results| == 0 then []
    else if results[0].Success? then [results[0]]
    else
      var rest := TakeThroughSuccess(results[1..]);
      assert forall j :: 0 <= j < |rest| ==> rest[j] == results[j + 1];
      [results[0]] + rest
  }

  /**
   * The sample selection: the table of the first sample whose reply builds
   * one; if none does, the last sample's error; with no samples at all, "No
   * connections to refresh slots from".
   */
  function SelectTable(results: seq<Result<seq<Entry>, RedisError>>): Result<seq<Entry>, RedisError> {
    var taken := TakeThroughSuccess(results);
    if |taken| == 0 then Failure(NoConnections) else taken[|taken| - 1]
  }

  lemma SelectTableSpec(results: seq<Result<seq<Entry>, RedisError>>)
    ensures |results| == 0 ==> SelectTable(results) == Failure(NoConnections)
    ensures SelectTable(results).Success? <==> exists i :: 0 <= i < |results| && results[i].Success?
    ensures SelectTable(results).Success? ==> exists i :: (0 <= i < |results| && results[i] == SelectTable(results)
                                                            && forall j :: 0 <= j < i ==> results[j].Failure?)
    ensures SelectTable(results).Failure? && |results| > 0 ==> SelectTable(results) == results[|results| - 1]
  {
    var taken := TakeThroughSuccess(results);
    if |taken| > 0 {
      var k := |taken| - 1;
      FailuresBefore(results, taken, k);
      if taken[k].Failure? {
        assert |taken| == |results|;
        assert forall i :: 0 <= i < |results| ==> results[i].Failure?;
      } else {
        assert 0 <= k < |results| && results[k] == SelectTable(results);
      }
    }
  }

  /** Up to the last element taken, the results are the taken ones, all failures before it. */
  lemma FailuresBefore(results: seq<Result<seq<Entry>, RedisError>>, taken: seq<Result<seq<Entry>, RedisError>>, k: nat)
    requires taken == TakeThroughSuccess(results) && k == |taken| - 1
    ensures k < |results| && results[k] == taken[k]
    ensures forall j :: 0 <= j < k ==> results[j].Failure?
  {
    forall j | 0 <= j < k
      ensures results[j].Failure?
    {
      assert results[j] == taken[j];
    }
  }

  function SampleTables(v: Variant, nodes: Nodes, samples: seq<Conn>): (r: seq<Result<seq<Entry>, RedisError>>)
    ensures |r| == |samples|
    ensures forall i :: 0 <= i < |samples| ==> r[i] == SampleTable(v, nodes.slotsReply(samples[i]))
  {
    seq(|samples|, i requires 0 <= i < |samples| => SampleTable(v, nodes.slotsReply(samples[i])))
  }

  /** The values of a table in key order (`slots.values()`). */
  function Masters(table: seq<Entry>): (r: seq<string>)
    ensures |r| == |table| && forall i :: 0 <= i < |table| ==> r[i] == table[i].1
  {
    seq(|table|, i requires 0 <= i < |table| => table[i].1)
  }

  /** The keys of a connection map in some order (iteration over a `HashMap`). */
  method Enumerate(connections: Connections) returns (keys: seq<string>)
    ensures |keys| == |connections|
    ensures forall a :: a in connections <==> a in keys
    ensures forall i, j :: 0 <= i < j < |keys| ==> keys[i] != keys[j]
  {
    keys := [];
    var rest := connections.Keys;
    while rest != {}
      invariant rest <= connections.Keys
      invariant forall a :: a in connections <==> a in keys || a in rest
      invariant forall a :: a in keys ==> a !in rest
      invariant |keys| + |rest| == |connections|
      invariant forall i, j :: 0 <= i < j < |keys| ==> keys[i] != keys[j]
      decreases |rest|
    {
      var a :| a in rest;
      keys := keys + [a];
      rest := rest - {a};
    }
  }

  /**
   * The fold that rebuilds the connection map: for each master in turn that
   * has no connection yet, keep the old connection if it answers PING, else
   * connect anew; a master that cannot be reached is left out.
   */
  method RebuildConnections(masters: seq<string>, previous: Connections, nodes: Nodes) returns (rebuilt: Connections)
    ensures forall a :: a in rebuilt ==> a in masters
    ensures forall a :: a in masters ==> (a in rebuilt <==> (a in previous && nodes.pingOk(previous[a])) || nodes.connect(a).Some?)
    ensures forall a :: a in rebuilt ==>
      if a in previous && nodes.pingOk(previous[a]) then rebuilt[a] == previous[a] else Some(rebuilt[a]) == nodes.connect(a)
  {
    var pool := previous;
    rebuilt := map[];
    var i := 0;
    while i < |masters|
      invariant 0 <= i <= |masters|
      invariant forall a :: a in rebuilt ==> a in masters[..i]
      invariant forall a :: a in pool ==> a in previous && pool[a] == previous[a]
      invariant forall a :: a in previous && a !in pool ==> a in masters[..i]
      invariant forall a :: a in previous && a in masters[..i] ==> a !in pool
      invariant forall a :: a in masters[..i] ==> (a in rebuilt <==> (a in previous && nodes.pingOk(previous[a])) || nodes.connect(a).Some?)
      invariant forall a :: a in rebuilt ==>
        if a in previous && nodes.pingOk(previous[a]) then rebuilt[a] == previous[a] else Some(rebuilt[a]) == nodes.connect(a)
    {
      var addr := masters[i];
      assert masters[..i + 1] == masters[..i] + [addr];
      if addr !in rebuilt {
        if addr in pool {
          var conn := pool[addr];
          pool := pool - {addr};
          if nodes.pingOk(conn) {
            rebuilt := rebuilt[addr := conn];
          } else if nodes.connect(addr).Some? {
            rebuilt := rebuilt[addr := nodes.connect(addr).value];
          }
        } else if nodes.connect(addr).Some? {
          rebuilt := rebuilt[addr := nodes.connect(addr).value];
        }
      }
      i := i + 1;
    }
    assert masters[..i] == masters;
  }

  /** The connections of a map, in the order of an enumeration of its keys. */
  function Samples(taken: Connections, keys: seq<string>): (r: seq<Conn>)
    requires forall i :: 0 <= i < |keys| ==> keys[i] in taken
    ensures |r| == |keys| && forall i :: 0 <= i < |keys| ==> r[i] == taken[keys[i]]
  {
    seq(|keys|, i requires 0 <= i < |keys| => taken[keys[i]])
  }

  /** Some connection's reply builds a table. */
  ghost predicate Refreshable(v: Variant, taken: Connections, nodes: Nodes) {
    exists a :: a in taken && SampleTable(v, nodes.slotsReply(taken[a])).Success?
  }

  /**
   * What a successful refresh from `taken` gives: the table of one
   * connection's reply, and a connection map that holds only masters of that
   * table, each exactly when its old connection answers PING (and is then
   * kept) or connecting to it succeeds.
   */
  ghost predicate Refreshed(v: Variant, taken: Connections, nodes: Nodes, table: seq<Entry>, rebuilt: Connections) {
    && (exists a :: a in taken && SampleTable(v, nodes.slotsReply(taken[a])) == Success(table))
    && (forall a :: a in rebuilt ==> a in Masters(table))
    && (forall a :: a in Masters(table) ==>
          (a in rebuilt <==> (a in taken && nodes.pingOk(taken[a])) || nodes.connect(a).Some?))
    && (forall a :: a in rebuilt ==>
          if a in taken && nodes.pingOk(taken[a]) then rebuilt[a] == taken[a] else Some(rebuilt[a]) == nodes.connect(a))
  }

  /** The error of a failed refresh: that of the sample last asked, some connection of `taken`. */
  ghost predicate FailedWith(v: Variant, taken: Connections, nodes: Nodes, e: RedisError) {
    exists a :: a in taken && SampleTable(v, nodes.slotsReply(taken[a])) == Failure(e)
  }

  /** A sample of some enumeration succeeds exactly when some connection's reply builds a table. */
  lemma SomeSampleSucceeds(v: Variant, taken: Connections, keys: seq<string>, nodes: Nodes)
    requires forall a :: a in taken <==> a in keys
    ensures var results := SampleTables(v, nodes, Samples(taken, keys));
      (exists i :: 0 <= i < |results| && results[i].Success?) <==> Refreshable(v, taken, nodes)
  {
    var results := SampleTables(v, nodes, Samples(taken, keys));
    if Refreshable(v, taken, nodes) {
      var a :| a in taken && SampleTable(v, nodes.slotsReply(taken[a])).Success?;
      var i :| 0 <= i < |keys| && keys[i] == a;
      assert results[i].Success?;
    }
    forall i | 0 <= i < |results| && results[i].Success?
      ensures Refreshable(v, taken, nodes)
    {
      assert keys[i] in taken && SampleTable(v, nodes.slotsReply(taken[keys[i]])).Success?;
    }
  }

  /**
   * `refresh_slots` on the connections it has taken out of the pipeline: the
   * table selected from the samples, with the connections to its masters;
   * without any sample it fails with "No connections to refresh slots from".
   */
  method RefreshSlots(v: Variant, taken: Connections, nodes: Nodes) returns (r: Result<(seq<Entry>, Connections), RedisError>)
    ensures |taken| == 0 ==> r == Failure(NoConnections)
    ensures r.Success? <==> Refreshable(v, taken, nodes)
    ensures r.Success? ==> Refreshed(v, taken, nodes, r.value.0, r.value.1) && Ordered(r.value.0)
    ensures r.Failure? && |taken| > 0 ==> FailedWith(v, taken, nodes, r.error)
  {
    var keys := Enumerate(taken);
    var results := SampleTables(v, nodes, Samples(taken, keys));
    SelectTableSpec(results);
    SomeSampleSucceeds(v, taken, keys, nodes);
    var table := SelectTable(results);
    if table.Failure? {
      if |keys| > 0 {
        var last := |keys| - 1;
        assert results[last] == SampleTable(v, nodes.slotsReply(taken[keys[last]]));
      }
      return Failure(table.error);
    }
    var i :| 0 <= i < |results| && results[i] == table;
    assert SampleTable(v, nodes.slotsReply(taken[keys[i]])) == table;
    var rebuilt := RebuildConnections(Masters(table.value), taken, nodes);
    r := Success((table.value, rebuilt));
  }
}
