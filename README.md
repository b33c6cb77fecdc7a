# redis-cluster client core in Dafny

This project is a model of the core of an asynchronous Redis Cluster client written in Rust (`src/lib.rs`), with proofs about the model. It covers:

- **Key to slot.** The key of a command is its second argument. Its hash tag is the span between the first `{` and the first `}` after it, when that span is not empty. The tag, or the whole key, is hashed with CRC-16/XMODEM and reduced modulo the 16384 slots. The Redis Cluster Specification describes this in its sections "Key distribution model" and "Hash tags". Module `HashSlot`, file `hash_slot.dfy`.
- **The `CLUSTER SLOTS` reply.** The reply is parsed into slot ranges, each with a master and its replicas. Module `ClusterSlots`, file `cluster_slots.dfy`.
- **The slot table.** The ranges are sorted by start and checked. As written, each range must start one slot after the previous one's end, counted in 16 bits, and the running end must come to 16384. The corrected check demands that the ranges tile slots 0 to 16383. The table is a `BTreeMap` from range end to master, and a slot lookup takes the first entry at or above the slot. Module `SlotMaps`, file `slot_map.dfy`.
- **One request's retry state machine** (`Request::poll_request`).
  - A per-request retry count has a cut-off.
  - MOVED and ASK trigger a slot refresh.
  - TRYAGAIN and CLUSTERDOWN trigger an exponential back-off.
  - Any other error excludes the node, until every connection is excluded.
  - The reply goes to the caller at most once.
  - Module `Requests`, file `requests.dfy`.
- **Routing a request to a node.** This covers `get_random_connection`, `get_connection` and `try_request`. Module `Routing`, file `routing.dfy`.
- **Slot refresh** (`refresh_slots`).
  - The first sample whose reply builds a table is chosen.
  - The connection map is rebuilt so that it holds only the masters of that table.
  - Module `Refresh`, file `refresh.dfy`.
- **The pipeline.**
  - It keeps the connections, the table and the queued requests.
  - `start_send` queues a request.
  - `poll_flush` alternates between `Recover` and `PollComplete`. It handles the in-flight list with `swap_remove` and `push`.
  - Module `Pipelines`, file `pipeline.dfy`.
- **The client configuration.** This covers `Client::open`, `set_retries` and `clone`. Module `ClientConfig`, file `client.dfy`.

`wrappers.dfy` defines `Option` and `Result`.

The slot refresh and the pipeline take a `Variant`. `AsWritten` is the program of `src/lib.rs` as it stands: `build_slot_map` with its 16-bit running end, and a failed refresh restarted from the emptied connection map. `Corrected` is the program with the corrections named under "## Findings".

The parts of the source that change state are modelled as classes whose methods carry `modifies` clauses:

- `Request` has its retry count, exclusion set, future and sender.
- `Pipeline` has its connection map, slot table, state and in-flight list, a `seq<Request>`.
- `Client` has its nodes and retry setting.

The loops of the source are methods with loop invariants. These are the parse of the slots reply, the pass over the in-flight list, the `poll_flush` loop, the rebuild of the connection map and the node loop of `Client::open`.

The combinator code is modelled as functions: `sub_key`, `command_key`, `slot_for_packed_command`, `build_slot_map` and the table lookup.

The outside world enters as inputs:

- **`Network` object.** It gives what each polled future or timer yields, and whether a refresh has finished. A finished refresh comes with the `Nodes` value it met, so each refresh sees the cluster as it was then.
- **`Nodes` value.** It gives each node's `CLUSTER SLOTS` reply, whether PING succeeds on a connection, and the connection made to an address.
- **Parsed command.** The command arrives already parsed into a protocol `Value`.

Random choices, and the iteration order of a `HashMap`, are nondeterministic picks (`:|`).

## Model

| member | source | states |
|---|---|---|
| HashSlot.CrcUpdateAppend | src/lib.rs:827 | Hashing a message in two pieces gives the same CRC-16/XMODEM as hashing it at once. |
| HashSlot.CrcCheckValue | src/lib.rs:827 | The CRC-16/XMODEM of the ASCII text "123456789" is the catalogued check value 0x31C3. |
| HashSlot.IndexOf | src/lib.rs:853-854 | `position` gives the first index holding the byte, with no earlier occurrence, or none when the byte is absent. |
| HashSlot.SubKey | src/lib.rs:850-869 | With a first `{` followed later by a first `}` and at least one byte between them, the result is exactly those bytes. In every other case the result is the whole key: no `{`, no `}` after it, or an empty tag `{}`. |
| HashSlot.SubKeyIdempotent | src/lib.rs:850-869 | Taking the hashed part of the hashed part changes nothing. |
| HashSlot.SameTagSameSlot | src/lib.rs:824-828 | Two keys with the same non-empty hash tag map to the same slot. |
| HashSlot.KeySlot | src/lib.rs:824-828 | The slot of a key is below 16384. |
| HashSlot.SlotForCommand | src/lib.rs:824-848 | There is a slot exactly when the command parsed to an array of at least two elements whose second is a bulk string. The slot is then below 16384 and is the CRC of that key's hashed part modulo 16384. |
| HashSlot.SlotOfKeyedCommand | src/lib.rs:831-845 | Any command whose second argument is a bulk string is routed by that key alone, whatever the other arguments. |
| HashSlot.SlotOfExistsCommand | src/lib.rs:984-990 | The unit test's `EXISTS` command maps to slot 964. |
| HashSlot.SlotOfSetCommand | src/lib.rs:991-999 | The unit test's first `SET ... NX PX` command maps to slot 8352. |
| HashSlot.SlotOfTaggedSetCommand | src/lib.rs:1001-1009 | The unit test's tagged `SET` command maps to slot 5210, and only the tag bytes 140, 2, 101 are hashed. |
| ClusterSlots.DecimalRoundTrip | src/lib.rs:954 | The port printed into a `redis://ip:port` address reads back as the same integer, negative or not. |
| ClusterSlots.NodeAddress | src/lib.rs:937-957 | A node yields an address exactly when it is an array of at least two elements with a bulk-string ip and an integer port. The address is then `redis://ip:port`. |
| ClusterSlots.NodeAddresses | src/lib.rs:934-959 | Every address comes from a valid node, and every valid node's address is kept; invalid nodes are dropped. |
| ClusterSlots.NodeAddressesConcat | src/lib.rs:934-959 | The addresses keep the order of the nodes: those of a concatenation are the addresses of the first part followed by those of the second. |
| ClusterSlots.NodeAddressesFirst | src/lib.rs:934-959 | The first address, which becomes the range's master, is the address of the first valid node. |
| ClusterSlots.EntrySlot | src/lib.rs:918-971 | An entry yields a range exactly when it has at least three fields, an integer start and end, and a valid node. The start and end are truncated to 16 bits, and the first valid node is the master with the others as replicas, in order. |
| ClusterSlots.GetSlots | src/lib.rs:913-975 | The parsing loop returns exactly the ranges the reply describes. A reply that is not an array gives no ranges. |
| ClusterSlots.ParseEntry | src/lib.rs:918-971 | The loop body for one entry yields that entry's range, or nothing where the loop continues. |
| ClusterSlots.EntriesStopAtNonArray | src/lib.rs:917 | Parsing stops at the first top-level element that is not an array: nothing after it, and no later entry, is read. |
| ClusterSlots.EntriesSound | src/lib.rs:913-975 | Every parsed range comes from one entry that describes exactly that range, with only arrays before it. |
| ClusterSlots.EntriesConcat | src/lib.rs:917-971 | After a run of arrays, parsing a concatenation gives the ranges of each part in order. |
| SlotMaps.Insert | src/lib.rs:473-476 | Inserting into an ordered map keeps it ordered. The key then holds the new value and every other key keeps its value. |
| SlotMaps.CollectOrdered | src/lib.rs:473-476 | Collecting pairs whose keys strictly increase gives exactly those pairs. |
| SlotMaps.FirstAtLeast | src/lib.rs:482 | The lookup gives nothing exactly when every key is below the slot. Otherwise it gives the entry at the first index whose key is at least the slot. |
| SlotMaps.InsertByStartSorted | src/lib.rs:451 | Inserting a range into ranges sorted by start keeps them sorted. |
| SlotMaps.SortByStart | src/lib.rs:451 | The sort is a permutation of the ranges. |
| SlotMaps.SortByStartSorted | src/lib.rs:451 | The sort's result is sorted by start. |
| SlotMaps.SortSortedUnchanged | src/lib.rs:451 | The sort leaves ranges that are already in order of their start unchanged, since it is stable. |
| SlotMaps.InsertByStartWithStart | src/lib.rs:451 | Inserting a range places it before every range with the same start, and keeps the order of those. |
| SlotMaps.SortByStartStable | src/lib.rs:451 | The sort is stable: for every start, the ranges with that start come out in their input order. |
| SlotMaps.CheckTilingSpec | src/lib.rs:452-464 | Corrected: the fold with unbounded integers that also rejects empty ranges succeeds exactly when the ranges are contiguous from the given slot. It then returns the slot after the last range. |
| SlotMaps.CheckTilingAsWrittenSpec | src/lib.rs:452-464 | As written: the fold succeeds exactly when the first range starts at the given slot and each next one starts at the previous end plus one, modulo 2^16; empty ranges pass. It then returns the last end plus one, modulo 2^16. |
| SlotMaps.BuildSlotMapAsWrittenSpec | src/lib.rs:450-479 | As written: a table is built exactly when the sorted ranges pass that fold from 0 and the running end comes to 16384. The table is then what `collect` makes of the pairs of each range's end and master. |
| SlotMaps.BuildSlotMapSpec | src/lib.rs:450-479 | Corrected: a table is built exactly when the sorted ranges tile the slots 0 to 16383: some range exists, the first starts at 0, each starts right after the previous one's end, none is empty, and the last ends at 16383. The table then has one entry per range, keyed by its end and valued by its master, in order. |
| SlotMaps.TilesEndsIncrease | src/lib.rs:452-464 | Contiguous ranges are disjoint and in order, so their ends form an ordered map. |
| SlotMaps.LookupFindsOwner | src/lib.rs:481-482 | Corrected: in a table built by the corrected check, every slot lies in exactly one range, and the lookup returns that range's end and master. |
| SlotMaps.WrappedEndAccepted | src/lib.rs:452-464 | As written, a range ending at 65535 wraps the running end to 0, so an overlapping range starting at 0 is accepted. The corrected check rejects it. |
| SlotMaps.EmptyRangeAccepted | src/lib.rs:450-479 | As written, an empty range 5 to 4 is accepted. Its entry overwrites the owner of slots 0 to 4. The corrected check rejects it. |
| SlotMaps.AsWrittenAgreesOnTiling | src/lib.rs:452-464 | On contiguous ranges that stay within the slot space, the fold as written returns the same result as the corrected fold. |
| SlotMaps.AsWrittenAgreesWhenTiled | src/lib.rs:450-479 | Whenever the sorted ranges tile the slot space, the table as written equals the corrected one. |
| Requests.SaturatingIncrement | src/lib.rs:279 | The retry count grows by one, and stays at the 32-bit maximum once there. |
| Requests.BackoffBounds | src/lib.rs:288-289 | The back-off lies between 1280 and 655360 ms. It is 1280 up to 7 retries and 655360 from 16 on. |
| Requests.BackoffDoubles | src/lib.rs:288-289 | Between 7 and 16 retries, each retry doubles the back-off. |
| Requests.BackoffMonotone | src/lib.rs:288-289 | More retries never give a shorter back-off. |
| Requests.CutOff | src/lib.rs:272-278 | At the retry limit, any error is delivered to the caller, and the retry count and exclusions stay as they were. |
| Requests.RetryCounted | src/lib.rs:272-279 | Below the limit, or with no limit, every error counts one more retry. |
| Requests.RedirectRefreshes | src/lib.rs:281-286 | Below the limit, MOVED or ASK asks for a slot refresh and clears the exclusions. |
| Requests.BusyBacksOff | src/lib.rs:286-292 | Below the limit, TRYAGAIN or CLUSTERDOWN clears the exclusions and waits between 1.28 s and 655.36 s, computed from the new retry count. |
| Requests.OtherErrorExcludes | src/lib.rs:296-303 | Below the limit, any other error adds the node to the exclusions. The request gives up exactly when at least as many nodes are excluded as there are connections, and otherwise tries another one. |
| Requests.DeliverOnlyWhenExhausted | src/lib.rs:272-303 | An error reaches the caller exactly at the retry limit, or for an ordinary error that leaves every connection excluded. |
| Requests.RetriesBounded | src/lib.rs:272-303 | With a limit of m retries, after retry ≤ m retries an error is delivered within at most m − retry + 1 further failures, whatever they are. |
| Requests.Request.constructor | src/lib.rs:548-554 | A new request has zero retries, no exclusions and no future, and still holds its sender. |
| Requests.Request.Respond | src/lib.rs:308-315 | The sender is used once: afterwards the message has been sent and the sender is gone. Nothing else changes. |
| Requests.Request.SetFuture | src/lib.rs:590-594 | Only the request's future changes. |
| Requests.Request.PollRequest | src/lib.rs:248-306 | A fired timer means trying a new connection. A pending future changes nothing. A reply is sent to the caller and the request is done. An error gives the retry count, exclusions, reaction and result that the retry policy decides, with the sender used exactly when the error is delivered. |
| Routing.RandomConnection | src/lib.rs:802-822 | A connection is picked exactly when there is one, and it is a connection of the map. When fewer addresses are excluded than there are connections, the pick avoids them. |
| Routing.GetConnection | src/lib.rs:481-507 | The slot's owner in the table comes with its existing connection, or else a new one. If connecting fails, or no entry is at or above the slot, a connection from the map is used. An empty connection map yields nothing in every case. |
| Routing.TryRequest | src/lib.rs:509-525 | A request with exclusions or without a slot goes to a connection of the map, avoiding the excluded nodes where possible. Otherwise it goes where `get_connection` sends it: the owner with its existing or a new connection, or else a connection of the map. |
| Refresh.SampleTable | src/lib.rs:387-389 | A failed reply keeps its error. A reply whose sorted ranges tile the slot space gives the map from each range's end to its master, in both variants. As written, a reply yields a table exactly when its ranges pass the 16-bit fold; corrected, exactly when they tile the slot space. Every table it yields is an ordered map. |
| Refresh.BuildSpec | src/lib.rs:450-479 | Each variant's `build_slot_map` accepts exactly what its check lets through, and both build the same table from ranges that tile the slot space. |
| Refresh.TakeThroughSuccess | src/lib.rs:391-395 | The results are taken up to and including the first success; only failures come before it. |
| Refresh.SelectTableSpec | src/lib.rs:386-406 | The selection succeeds exactly when some sample succeeds, and then gives the first successful sample's table. Otherwise it gives the last sample's error. With no samples it gives "No connections to refresh slots from". |
| Refresh.Enumerate | src/lib.rs:382 | The keys of a connection map are enumerated once each. |
| Refresh.RebuildConnections | src/lib.rs:412-444 | The rebuilt map holds only masters of the table. A master is in it exactly when its old connection answers PING or a new connection to it succeeds. The old connection is kept when it answers. |
| Refresh.SomeSampleSucceeds | src/lib.rs:382-395 | Some sample of the enumeration succeeds exactly when some connection's reply builds a table. |
| Refresh.RefreshSlots | src/lib.rs:380-448 | With no connections, the refresh fails with "No connections to refresh slots from". It succeeds exactly when some connection's reply builds a table under the variant's check, and the table is then one such reply's, an ordered map. The new connection map holds only that table's masters, as the rebuild decides. When a refresh with connections fails, its error is one a taken connection's reply produced (`FailedWith`); in the source it is the last sample's. |
| Pipelines.SwapRemove | src/lib.rs:605 | `swap_remove` shortens the list by one: the element at the index is replaced by the last one and the rest stay in place. |
| Pipelines.SwapRemoveMultiset | src/lib.rs:605 | `swap_remove` removes exactly one occurrence of the element at the index. |
| Pipelines.SwapRemoveDistinct | src/lib.rs:605 | On a list without repetitions, `swap_remove` leaves exactly the other elements, again without repetitions. |
| Pipelines.Pipeline.constructor | src/lib.rs:325-331 | A new pipeline has the initial connections, no table, no requests and state `PollComplete`. |
| Pipelines.Pipeline.StartSend | src/lib.rs:538-560 | `start_send` appends one new request and leaves every earlier one, and the connections, table and state, as they were. The new request has the command's slot, zero retries, no exclusions, no future and the pipeline's retry limit. |
| Pipelines.Pipeline.Finish | src/lib.rs:604-606 | `Done` removes exactly that request from the list. |
| Pipelines.Pipeline.MoveToEnd | src/lib.rs:607-613 | `TryNewConnection` moves that request to the end, keeping the requests as a multiset. |
| Pipelines.Pipeline.Requeue | src/lib.rs:607-613 | The request goes to the end and gets a new attempt when a connection exists. The other requests keep their futures. |
| Pipelines.Pipeline.Route | src/lib.rs:590-594 | A request is given a future exactly when there is a connection, avoiding its excluded nodes where possible. With no exclusions and a slot, the future's address is that slot's owner (or the fallback connection), as `SlotTarget` states. |
| Pipelines.Pipeline.PollAt | src/lib.rs:597 | Polling one request answers it exactly when the result is `Done`, and leaves the others alone. It takes exactly one recorded poll, if any is left. |
| Pipelines.Pipeline.Advance | src/lib.rs:597-622 | `Err` keeps the request in place with no future. `Done` removes it, after its reply was sent. `TryNewConnection` moves it to the end, with a new future. When the index moves on without an error, the list is unchanged. A panic (no connection to re-route to) happens only with no connections. Only that request may change (`modifies inFlight[i]`). It takes exactly one recorded poll, if any is left, and shortens the work left in the pass, that is the length minus the index, by at most one. |
| Pipelines.Pipeline.Step | src/lib.rs:589-622 | One turn of the loop keeps the list well formed and the requests before the index untouched. A request leaves the list only once it has been answered. When the index moves on without an error, the list is unchanged. A re-routed request at the end has a future. Only the request at the index may change (`modifies inFlight[i]`). Without a panic, it polls that request: it takes exactly one recorded poll, if any is left. |
| Pipelines.Pipeline.PollInFlight | src/lib.rs:586-623 | A pass over the list removes only answered requests. Without an error, every remaining request has a future. It changes neither the state, the table nor the connections, and panics only with no connections. Without a panic, the pass takes at least as many recorded polls as there were requests, or all of them when fewer were left: it does not stop before polling. |
| Pipelines.Pipeline.StartRefresh | src/lib.rs:410 | A refresh takes the connection map out of the pipeline, leaving it empty. |
| Pipelines.Pipeline.RestartRefreshAsWritten | src/lib.rs:581-583 | As written, a refresh restarted after a failure starts from the pipeline's own connection map, which is empty by then. |
| Pipelines.Pipeline.RecoverAsWritten | src/lib.rs:567-584 | As written, with refreshes that finish at once: once a refresh has failed, every later one fails with "No connections to refresh slots from", whatever the cluster answers, and the pipeline stays in `Recover` with no connections. |
| Pipelines.Pipeline.RestartRefresh | src/lib.rs:581-583 | Corrected, a failed refresh restarts from the connections it took. |
| Pipelines.Pipeline.RecoverCorrected | src/lib.rs:567-584 | Corrected, with refreshes that finish at once: each refresh is a success exactly when its view of the cluster lets one of the taken connections answer with a table, and the pipeline leaves `Recover` exactly when some view does. |
| Pipelines.Pipeline.RecoverRound | src/lib.rs:569-583 | Corrected: one refresh from the taken connections succeeds exactly when the view allows it, and then returns to `PollComplete`; otherwise it restarts from the same connections. |
| Pipelines.Pipeline.PollRecover | src/lib.rs:569-584 | An unfinished refresh leaves the pipeline as it is; the poll taken said "not finished", or none was left. A finished one that can succeed installs a table and connections as the refresh guarantees, and returns to `PollComplete`. One that fails leaves no connections and the table unchanged, and restarts: from the connections it took when corrected, from the empty map as written. |
| Pipelines.Pipeline.FinishRefresh | src/lib.rs:570-583 | A refresh from the taken connections has finished. If some taken connection's reply builds a table, the pipeline is back in `PollComplete` with what the refresh guarantees (`Refreshed`). Otherwise it is left with no connections and the same table, in `Recover`: of the taken connections when corrected, of the empty map as written. |
| Pipelines.Pipeline.ApplyRefresh | src/lib.rs:570-583 | A successful refresh installs its table and connections and returns to `PollComplete`. After a failure a new refresh starts: as written from the pipeline's emptied map, corrected from the connections the failed one took. |
| Pipelines.Pipeline.Install | src/lib.rs:570-574 | The refresh's table and connections become the pipeline's, in state `PollComplete`. |
| Pipelines.Pipeline.FlushRequests | src/lib.rs:585-633 | The `PollComplete` branch. Without a panic, it takes at least as many recorded polls as there were queued requests, or all of them. After an error, the state is `Recover` of the connections held before, no connections are left and the table is unchanged. With neither an error nor a panic, the state and connections are unchanged, the flush is ready exactly when the list is empty, and every remaining request has a future. A panic leaves no connections. |
| Pipelines.Pipeline.PollFlush | src/lib.rs:562-636 | `poll_flush`, in either variant, removes only answered requests. Started in `PollComplete` and without a panic, it takes at least as many recorded polls as there were queued requests, or all of them. It reports ready only with an empty list in state `PollComplete`, and pending only with requests left or a refresh under way. Pending in `PollComplete` means every remaining request has a future. Pending in `Recover` means the last refresh poll taken said "not finished", or none was left (`LastRefreshPending`). A panic happens only in `PollComplete` with no connections. |
| Pipelines.NewPipeline | src/lib.rs:322-340 | A pipeline is made exactly when some initial connection's reply builds a table. It then holds the table of one such reply and the connections the refresh rebuilt, all masters of that table, in state `PollComplete` with no requests. The case of no initial connections, where the refresh fails with "No connections to refresh slots from", never arises in the source: `create_initial_connections` fails first with "Failed to create initial connections" (src/lib.rs:369-373). Otherwise a failure carries an error a taken connection's reply produced. |
| ClientConfig.CollectNodes | src/lib.rs:107-117 | The nodes are kept in order exactly when all of them are read and are TCP addresses. Otherwise the first rejected node's error is returned. |
| ClientConfig.Client.Open | src/lib.rs:106-122 | A client opens exactly when every node is accepted. It keeps the nodes in order, keeps only TCP addresses, and retries 16 times by default. |
| ClientConfig.Client.SetRetries | src/lib.rs:126-129 | Only the retry setting changes. |
| ClientConfig.Client.CloneAsWritten | src/lib.rs:741-745 | As written, a clone has the same nodes but the default 16 retries. |
| ClientConfig.Client.CloneLosesRetriesAsWritten | src/lib.rs:741-745 | A client whose retry limit was set to another value loses it when cloned. |
| ClientConfig.Client.Clone | src/lib.rs:741-745 | Corrected, a clone has the same nodes and the same retry setting. |

## Left out

- HashSlot.SlotForCommand: the packed bytes are not parsed. The argument is what `redis::parse_redis_value` makes of them, and `None` stands for a parse failure. The RESP parser is foreign code.
- ClusterSlots.Text: `String::from_utf8_lossy` is modelled as one character per byte. This is exact for the ASCII ips a cluster reports. Invalid UTF-8 is not replaced by U+FFFD.
- Requests.Request.PollRequest: a busy error arms a timer of at least 1.28 s, which is polled at once. The model returns `Pending` for that first poll, so it does not cover a timer that is ready immediately.
- Requests.Request.PollRequest requires a future. The source panics with "Request future must be Some" when polled without one; the pipeline never does this.
- Requests.Request.PollRequest requires the sender. A request is answered only when it is done, and then leaves the list, so the "Result should only be sent once" panic is never reached.
- Routing.RandomConnection: `None` stands for the panic on an empty connection map. The `debug_assert!` and the `expect("No targets to choose from")` are not distinguished.
- Refresh.RebuildConnections: the replies, PING on a connection and connecting to an address are fixed functions during one refresh. A node that answers differently to two attempts within one refresh is not modelled. Each refresh gets its own `Nodes` value from the `Network`.
- Refresh.SlotRefreshError: the texts of the "Slot refresh error." errors are simplified. Errors carry only their extension code and a text.
- Pipelines.Pipeline.PollFlush: the waker and `task::Context` are left out. What polling yields, and whether a refresh is done, come from the recorded sequences of a `Network` object. When these run out, everything is pending.
- Pipelines.Pipeline.PollFlush: a finished refresh is applied in the same poll. The model does not represent refresh futures that are only partly driven.
- Pipelines.Pipeline.PollFlush: as written, the refresh restarted after a failure has no samples, so its future is ready at once and `poll_flush` goes round its loop inside one call without end. The model takes every refresh's readiness from the `Network` record, so it returns `FlushPending` when the record runs out instead of spinning. `RecoverAsWritten` states that every such refresh fails.
- Pipelines.NewPipeline: `create_initial_connections` is left out: its result, the initial connection map, is the input. It is network I/O.
- ClientConfig.UnixSocketRejected: the text is the source's. Its error kind, `InvalidClientConfig`, is not modelled, because errors carry only an extension code and a text.
- ClientConfig: `into_connection_info` (URL parsing in the `redis` crate) is an input: per node, its connection information or its error. `ConnectionInfo` keeps only the address, database and password.
- `Client::get_connection`, `Client::get_generic_connection`, `Connection::new` and the `ConnectionLike` impl are left out: the mpsc channel, the oneshot channels, spawning on the executor, `req_packed_command`, `req_packed_commands` and `get_db`. They are asynchronous plumbing.
- `poll_ready` (always ready) and `poll_close` (which is `poll_flush`) are not modelled separately.
- `connect_and_check`, `check_connection` and the `CLUSTER SLOTS` request of `get_slots` are network I/O. Only their outcomes appear, through `Nodes`.
- SlotMaps.CheckTilingAsWritten: overflow of the `u16` accumulator in `build_slot_map` is modelled as in a release build, where it wraps. A debug build panics instead. The variant `AsWritten` of `Refresh.SampleTable`, and everything built on it, uses this fold.
- The `Debug` impl, logging (`trace!`), the `try_future!` macro and the doc-comment examples are left out. So is `tests/basic.rs`, which holds integration tests against a live cluster.

## Findings

| source | as written | input that shows it | evidently intended | confidence | as-written member | corrected member |
|---|---|---|---|---|---|---|
| src/lib.rs:452-464 | The running end `slot_data.end() + 1` is a `u16`, so an end of 65535 wraps to 0 in a release build. | Ranges 0..65535 (master "a") and 0..16383 (master "b"). They overlap but are accepted, giving the table {16383: "b", 65535: "a"}. | Overlapping ranges are rejected. | medium; not executed | SlotMaps.BuildSlotMapAsWritten, SlotMaps.WrappedEndAccepted | SlotMaps.BuildSlotMap, SlotMaps.BuildSlotMapSpec, Refresh.SampleTable |
| src/lib.rs:452-476 | A range whose end is below its start passes the fold, and its entry overwrites the one before it with the same end. | Ranges 0..4 "a", 5..4 "b", 5..16383 "c". They are accepted as the table {4: "b", 16383: "c"}, so slots 0 to 4 go to "b". | Empty ranges are rejected; every slot's owner is the range that contains it. | medium; not executed | SlotMaps.BuildSlotMapAsWritten, SlotMaps.EmptyRangeAccepted | SlotMaps.BuildSlotMap, SlotMaps.LookupFindsOwner, Refresh.SampleTable |
| src/lib.rs:410 | After a failed refresh, `refresh_slots` runs again on the pipeline's connection map, which the failed refresh already emptied with `mem::replace`. | Any refresh that fails, e.g. one where no node's `CLUSTER SLOTS` reply tiles the slots. Every later refresh fails at once with "No connections to refresh slots from", and `poll_flush` never leaves `Recover`. | The new refresh starts from the connections the failed one took, and succeeds as soon as one of them answers with a table. | medium; not executed | Pipelines.Pipeline.RestartRefreshAsWritten, Pipelines.Pipeline.RecoverAsWritten | Pipelines.Pipeline.RestartRefresh, Pipelines.Pipeline.ApplyRefresh, Pipelines.Pipeline.RecoverCorrected |
| src/lib.rs:741-745 | `clone` re-opens the nodes, so the clone's retry setting is the default 16. | `set_retries(Some(3))` followed by `clone()`: the clone retries 16 times. | A clone keeps the retry setting. | low; not executed | ClientConfig.Client.CloneAsWritten, ClientConfig.Client.CloneLosesRetriesAsWritten | ClientConfig.Client.Clone |
