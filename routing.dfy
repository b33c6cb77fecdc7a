/**
 * Choosing the node a request goes to (`get_random_connection`,
 * `Pipeline::get_connection` and `Pipeline::try_request` in src/lib.rs).
 *
 * The random pick is a nondeterministic choice; the outcome of connecting
 * (and checking with PING) a node that has no connection yet is an input,
 * the function `connect`.  `None` stands for the panic
 * "No targets to choose from" on an empty connection map.
 */
module Routing {
  import opened Wrappers
  import SlotMaps

  /** A connection handle; only its identity matters here. */
  type Conn = nat

  type Connections = map<string, Conn>

  /** Removing at most `|b|` elements from `a` leaves at least `|a| - |b|` of them. */
  lemma {:induction false} DifferenceSize(a: set<string>, b: set<string>)
    ensures |a - b| >= |a| - |b|
    decreases |b|
  {
    if b != {} {
      var x :| x in b;
      DifferenceSize(a, b - {x});
      assert a - b == (a - (b - {x})) - {x};
    }
  }

  /**
   * `get_random_connection`: a random connection, avoiding the excluded
   * addresses as long as fewer addresses are excluded than there are
   * connections.
   */
  method RandomConnection(connections: Connections, excludes: Option<set<string>>)
    returns (r: Option<(string, Conn)>)
    ensures r.Some? <==> |connections| > 0
    ensures r.Some? ==> r.value.0 in connections && r.value.1 == connections[r.value.0]
    ensures r.Some? && excludes.Some? && |excludes.value| < |connections| ==> r.value.0 !in excludes.value
  {
    if excludes.Some? && |excludes.value| < |connections| {
      var targets := connections.Keys - excludes.value;
      DifferenceSize(connections.Keys, excludes.value);
      var addr :| addr in targets;
      r := Some((addr, connections[addr]));
    } else if |connections| > 0 {
      var addr :| addr in connections;
      r := Some((addr, connections[addr]));
    } else {
      r := None;
    }
  }

  /**
   * Where `get_connection` may send a request for `slot`: the owner of the
   * slot with its existing connection, else with a new one, else, like a
   * slot with no owner in the table, some connection of the map.
   */
  ghost predicate SlotTarget(slots: seq<SlotMaps.Entry>, connections: Connections, slot: nat,
                             connect: string -> Option<Conn>, t: (string, Conn)) {
    match SlotMaps.FirstAtLeast(slots, slot)
    case Some((_, owner)) =>
      if owner in connections then t == (owner, connections[owner])
      else if connect(owner).Some? then t == (owner, connect(owner).value)
      else t.0 in connections && t.1 == connections[t.0]
    case None => t.0 in connections && t.1 == connections[t.0]
  }

  /**
   * `get_connection`: the owner of the slot in the table, with its existing
   * connection or a new one; if connecting fails, or the table has no entry
   * at or above the slot, a random connection.  The random connection is
   * picked before connecting, so an empty connection map panics either way.
   */
  method GetConnection(slots: seq<SlotMaps.Entry>, connections: Connections, slot: nat, connect: string -> Option<Conn>)
    returns (r: Option<(string, Conn)>)
    ensures r.Some? <==> |connections| > 0
    ensures r.Some? ==> SlotTarget(slots, connections, slot, connect, r.value)
  {
    var entry := SlotMaps.FirstAtLeast(slots, slot);
    if entry.Some? {
      var owner := entry.value.1;
      if owner in connections {
        return Some((owner, connections[owner]));
      }
      var random := RandomConnection(connections, None);
      if random.None? {
        return None;
      }
      var connected := connect(owner);
      r := if connected.Some? then Some((owner, connected.value)) else random;
    } else {
      r := RandomConnection(connections, None);
    }
  }

  /**
   * `try_request`: a request that has excluded nodes, or has no slot, goes to
   * a random connection avoiding the excluded nodes; otherwise it goes where
   * the slot table says.
   */
  method TryRequest(slots: seq<SlotMaps.Entry>, connections: Connections, slot: Option<nat>,
                    excludes: set<string>, connect: string -> Option<Conn>)
    returns (r: Option<(string, Conn)>)
    ensures r.Some? <==> |connections| > 0
    ensures r.Some? && (|excludes| > 0 || slot.None?) ==>
      r.value.0 in connections && r.value.1 == connections[r.value.0]
      && (|excludes| < |connections| ==> r.value.0 !in excludes)
    ensures r.Some? && |excludes| == 0 && slot.Some? ==> SlotTarget(slots, connections, slot.value, connect, r.value)
  {
    if |excludes| > 0 || slot.None? {
      r := RandomConnection(connections, Some(excludes));
    } else {
      r := GetConnection(slots, connections, slot.value, connect);
    }
  }
}
