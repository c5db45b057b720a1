# WebSocket connection manager — a Dafny model

This project models the core of `blackroad-websocket-manager`. That core is a
connection registry for agents on WebSockets, kept in two places: an in-memory
pool and a SQLite database. The model covers:

- the `ConnectionPool`: an in-memory dictionary of active connections, written through to the
  `connections` table;
- registering and dropping connections;
- heartbeats and the heartbeat-timeout sweep;
- message delivery: `broadcast` to a filtered snapshot of the pool and `send_message` to one
  connection, each message persisted to the `messages` table and counted against its connection;
- the read side: active connections, message history and connection statistics.

Modules:

- `Wrappers` (`wrappers.dfy`): `Option`.
- `Store` (`store.dfy`): the three tables as the `Database` class. Each SQL statement the core
  issues is one method. `connections` is a map keyed by the UNIQUE `ws_id`. `messages` and
  `heartbeat_log` are append-only sequences. Two counters stand in for the AUTOINCREMENT row id and
  for `uuid.uuid4()`.
- `Registry` (`registry.dfy`): the `Connection` record and the `ConnectionPool` class. The
  dictionary `_pool` becomes a map `entries` plus its key order `order` (Python dictionaries
  iterate in insertion order). `Valid()` is the pool's shape. `Mirrors()` is the agreement between
  pool and table: the pool's keys are exactly the active rows, and each entry is what
  `_row_to_connection` reads back from its row.
- `Delivery` (`delivery.dfy`): `add_connection`, `remove_connection`, `broadcast`, `send_message`.
- `Liveness` (`liveness.dfy`): `heartbeat_check`.
- `Queries` (`queries.dfy`): `get_active_connections`, `get_message_history`,
  `connection_stats`.

Timestamps are naturals (seconds). The current time is the explicit `now` parameter, and the SQL
default `datetime('now')` is that same `now`. A `last_heartbeat` that does not parse as ISO-8601
is `None`.

Every state-changing operation is a method proved against functions on values. Examples are
`Disconnect`, `Bump`, `Deliveries`, `Split`, `DisconnectAll`, `BumpAll` and `Histogram`. The
properties the program promises are then proved about those functions. Each pool operation
that may leave the agreement with the table preserves `Mirrors()`.

## Model

| member | source | states |
|---|---|---|
| Store.Disconnect | src/main_module.py:137-140 | `UPDATE … SET status='disconnected', disconnected_at=now WHERE ws_id=?`: the same keys; only the named row changes; an unknown id changes nothing |
| Store.SetHeartbeat | src/main_module.py:159-161 | `UPDATE … SET last_heartbeat=?`: the same keys, only the named row changes |
| Store.Bump | src/main_module.py:171-173 | `UPDATE … SET message_count=message_count+1`: the same keys, only the named row changes |
| Store.Database.Open | src/main_module.py:44-89 | a store opened on tables that meet the table invariants has both invariants and holds those tables |
| Store.Database.Upsert | src/main_module.py:122-129 | `INSERT OR REPLACE` replaces the whole row: a fresh AUTOINCREMENT id, which is returned as `lastrowid`, the given columns and an empty `disconnected_at`; the id counter advances and the row invariant is kept |
| Store.Database.MarkDisconnected | src/main_module.py:137-140 | the table becomes `Disconnect(old table)` and the row invariant is kept |
| Store.Database.UpdateHeartbeat | src/main_module.py:159-161 | the table becomes `SetHeartbeat(old table)` and the row invariant is kept |
| Store.Database.IncrementMessageCount | src/main_module.py:171-173 | the table becomes `Bump(old table)` and the row invariant is kept |
| Store.Database.LogHeartbeat | src/main_module.py:162-164 | exactly one `heartbeat_log` row `(ws_id, now, latency_ms)` is appended |
| Store.Database.FreshMessageId | src/main_module.py:39 | `uuid4()`: an id different from every stored message id |
| Store.Database.InsertMessage | src/main_module.py:214-217 | a row with a fresh id is appended and message ids stay unique |
| Registry.ToRow | src/main_module.py:122-128 | the row `INSERT OR REPLACE` writes is keyed by the connection's `ws_id`, carries the id given, and has an empty `disconnected_at` because the column list leaves it out (a replace clears an earlier disconnect) |
| Registry.FromRow | src/main_module.py:109-119 | `_row_to_connection` keeps the row's `ws_id` and takes its `id` as `db_id` |
| Registry.FromRowForgetsDisconnect | src/main_module.py:109-119 | two rows read back as the same connection exactly when they differ at most in `disconnected_at`, the one column `_row_to_connection` drops |
| Registry.ReadBackAfterWrite | src/main_module.py:109-132 | reading back the row `add` writes gives the connection that was added, with `db_id` set to its row id |
| Registry.WriteBackAfterRead | src/main_module.py:109-128 | writing back a row read by `_row_to_connection` gives the same row exactly when its `disconnected_at` is empty (an if-and-only-if) |
| Registry.Ids | src/main_module.py:148-149 | the ids of a connection list: the same length, and position by position each connection's `ws_id` |
| Registry.Without | src/main_module.py:142 | `del` on the key order: keeps exactly the keys that were not deleted, and keeps the order free of duplicates |
| Registry.WithoutAppend | src/main_module.py:142 | `del` keeps the surviving keys in their order: deleting from a concatenation is deleting from each part |
| Registry.WithoutTwice | src/main_module.py:142 | deleting two key sets one after the other equals deleting their union |
| Registry.DistinctCardinality | src/main_module.py:151-152 | a duplicate-free key order has as many keys as positions |
| Registry.ConnectionPool.constructor | src/main_module.py:95-106 | `_load_active`: the new pool holds exactly the active rows, each as `_row_to_connection` reads it (`Mirrors`) |
| Registry.ConnectionPool.Get | src/main_module.py:145-146 | `_pool.get`: in a well-formed pool, finds a connection exactly when the id is one of the pool's keys, and the connection found carries that id |
| Registry.ConnectionPool.GetAll | src/main_module.py:148-149 | `list(_pool.values())`: its ids are the key order, and each element is the pooled entry for its id |
| Registry.ConnectionPool.Count | src/main_module.py:151-152 | `len(_pool)` equals the length of `get_all()` |
| Registry.ConnectionPool.Add | src/main_module.py:121-132 | the row is replaced by `ToRow(c, new id)`; the entry is the connection with `db_id` set; a new key goes to the end of the order and an existing key keeps its place; the pool/table agreement is kept for an active connection |
| Registry.ConnectionPool.Remove | src/main_module.py:134-143 | returns whether the id was pooled; if so, the row is marked disconnected and only that key is evicted; otherwise pool and table are unchanged; agreement is kept |
| Registry.ConnectionPool.UpdateHeartbeat | src/main_module.py:154-166 | true exactly when the id is pooled; then `last_heartbeat` is set to `now` in pool and table and exactly one log row is appended; otherwise nothing changes and no log row is written; agreement is kept |
| Registry.ConnectionPool.IncrementMessageCount | src/main_module.py:168-174 | for a pooled id, one more message in pool and table; for any other id, nothing changes (no disconnected row is touched); agreement is kept |
| Registry.GetSeesOnlyActive | src/main_module.py:145-146 | under agreement, `get` finds an id exactly when its row is active, and returns what its row reads back as |
| Registry.MirroredEntriesActive | src/main_module.py:100-106 | under agreement every pooled connection has status active |
| Delivery.MessageRow | src/main_module.py:214-217 | the `INSERT INTO messages … VALUES(?,?,?,?,?,1)` column list: the row carries the message's id, sender and recipient, and `delivered` is the constant 1; `sent_at` is the column default `datetime('now')`, which is `now` |
| Delivery.Deliveries | src/main_module.py:207-220 | the rows the delivery loop writes: exactly one per recipient; `DeliveriesAt` gives the i-th row (the message to the i-th recipient with id `first + i`) and `DeliveriesAddressed` that every row is delivered, with the broadcast's type, sender and content, under distinct ids |
| Delivery.DeliveriesAt | src/main_module.py:207-222 | the i-th message row of a delivery run is the message to the i-th recipient with id `first + i` |
| Delivery.DeliveriesAddressed | src/main_module.py:207-217 | one row per recipient, addressed to it, with the given type, sender and content, marked delivered, under distinct fresh ids |
| Delivery.DeliveriesStep | src/main_module.py:207-222 | delivering to one more recipient appends exactly its row |
| Delivery.AddConnection | src/main_module.py:177-180 | the returned connection is active, stamped `now`, with zero messages and metadata defaulting to `{}`; afterwards `get(ws_id)` returns it; `count()` grows by one exactly when the id was new; every other id is unaffected; the table is the old table with exactly that one row replaced, with `message_count` 0 and no `disconnected_at`; a new id goes to the end of the key order and a known one keeps its place; agreement is kept |
| Delivery.RemoveConnection | src/main_module.py:183-184 | returns whether the id was pooled; afterwards `get` misses it and no other id changes; the key order loses that id only and keeps the rest in order; an unknown id leaves pool and table unchanged; a known one has its row disconnected; agreement is kept |
| Delivery.RemoveTwice | src/main_module.py:134-143 | removing the same id twice returns true, then false |
| Delivery.Select | src/main_module.py:201-202 | the list comprehension keeps exactly the elements that pass the filter, never more than it was given, and keeps ids duplicate-free |
| Delivery.SelectAppend | src/main_module.py:201-202 | filtering keeps order: it distributes over concatenation |
| Delivery.BumpAll | src/main_module.py:170 | the pool with one more message for each recipient has the same keys |
| Delivery.BumpRows | src/main_module.py:171-173 | the table with one more message for each recipient has the same keys |
| Delivery.BumpAllCounts | src/main_module.py:168-170 | for duplicate-free recipients, each pooled connection gains as many messages as the recipients name it (one for a recipient, none for any other) and is otherwise unchanged |
| Delivery.BumpRowsCounts | src/main_module.py:171-173 | the same for the `message_count` column: each row gains one per time the recipients name it, and is otherwise unchanged |
| Delivery.BumpAllStep | src/main_module.py:170 | counting one more recipient adds one message to its entry only |
| Delivery.BumpRowsStep | src/main_module.py:171-173 | counting one more recipient in the table equals one more `UPDATE … message_count+1` |
| Delivery.MirrorsAfterBumps | src/main_module.py:168-174 | counting messages for pooled ids in both pool and table keeps them in agreement |
| Delivery.BroadcastTargetsExactlyAccepted | src/main_module.py:198-202 | the broadcast targets are duplicate-free, and an id is among them exactly when it is pooled and its connection passes the filter (every pooled id when there is no filter) |
| Delivery.Targets | src/main_module.py:198-202 | `targets = pool.get_all()`, filtered when a filter is given: exactly the snapshot's connections the filter accepts, duplicate-free ids when the snapshot's are |
| Delivery.DeliverTo | src/main_module.py:208-220 | one delivery: a message with a fresh id for the target, exactly one row appended, and the target's count raised by one in pool and table; agreement is kept |
| Delivery.DeliverNext | src/main_module.py:207-220 | one pass of the delivery loop: the next recipient's row is appended to `Deliveries` of the recipients so far, and its count joins `BumpAll`/`BumpRows` of those so far |
| Delivery.DeliverEach | src/main_module.py:207-222 | the delivery loop: returns the recipients in order; the message table gains exactly `Deliveries(recipients)`; each recipient's count rises by one in pool and table and nothing else changes; agreement is kept |
| Delivery.Broadcast | src/main_module.py:187-223 | returns the ids of the filtered snapshot in pool order (all ids without a filter); appends exactly one delivered row per returned id and counts it; no targets means `[]` and no rows; agreement is kept |
| Delivery.SendMessage | src/main_module.py:260-283 | `None` exactly when the id is not pooled, and then no table or count changes; otherwise the message to that id with a fresh id, exactly one row appended and that id's count raised by one; agreement is kept |
| Liveness.TimedOut | src/main_module.py:240-251 | with a parsed heartbeat `t`, stale exactly when `t + timeout < now` (strictly before the cutoff); an unparseable heartbeat reads as `now` (`HeartbeatInstant`), so it is stale only under a negative timeout |
| Liveness.Split | src/main_module.py:245-255 | the `(active, timed_out)` report has one entry per snapshot connection, all drawn from the snapshot's ids |
| Liveness.DisconnectAll | src/main_module.py:251-253 | disconnecting a list of ids keeps the table's keys |
| Liveness.DisconnectAllRows | src/main_module.py:251-253 | after the sweep each evicted row is disconnected at `now`, and every other row is unchanged |
| Liveness.SplitPartition | src/main_module.py:241-255 | `active ++ timed_out` splits the snapshot's ids into two disjoint duplicate-free lists; an id is timed out exactly when its heartbeat is strictly older than `now - timeout`; a heartbeat exactly at the cutoff, or an unparseable one under a non-negative timeout, stays active |
| Liveness.SplitIsFilter | src/main_module.py:245-255 | each list of the report is the snapshot filtered by the timeout test (or its negation), in snapshot order |
| Liveness.CheckNext | src/main_module.py:246-255 | one sweep step: extends the report by the next connection and evicts it if it is stale |
| Liveness.HeartbeatCheck | src/main_module.py:230-257 | the report is `Split(snapshot)`; exactly the timed-out ids leave the pool and its order; their rows, and only theirs, are marked disconnected; agreement is kept |
| Queries.GetActiveConnections | src/main_module.py:226-227 | exactly the snapshot's connections whose status is active |
| Queries.ActiveConnectionsAreAll | src/main_module.py:226-227 | under agreement the filter drops nothing: the result is `get_all()` |
| Queries.Involving | src/main_module.py:291-295 | `recipient_id=? OR sender_id=?`: keeps every matching row as often as it occurs, and no other row |
| Queries.Insert | src/main_module.py:294 | inserting adds exactly one row to the multiset |
| Queries.InsertNewestFirst | src/main_module.py:294 | inserting keeps a list ordered by `sent_at`, newest first |
| Queries.SortNewestFirst | src/main_module.py:294 | `ORDER BY sent_at DESC`: a permutation of its input, newest first |
| Queries.Newest | src/main_module.py:294-299 | `ORDER BY … LIMIT`: newest first, drawn from the input, exactly `min(limit, number of rows)` rows for a non-negative limit; everything when the limit is negative or at least the row count |
| Queries.PrefixIsNewest | src/main_module.py:294-299 | in a newest-first list, the rows a limit cuts off are exactly the rest, and none is newer than a kept row |
| Queries.NewestKeepsNewest | src/main_module.py:294-299 | no row left out by the limit is newer than any row returned |
| Queries.Candidates | src/main_module.py:291-299 | with a non-empty `ws_id`, exactly the rows to or from it; with none or an empty one, the whole table |
| Queries.GetMessageHistory | src/main_module.py:286-301 | newest first; drawn from the table; all to or from a non-empty `ws_id`; exactly `min(limit, number of matching rows)` rows for a non-negative limit; every matching row when the limit is negative or at least the number of matching rows |
| Queries.HistoryKeepsNewest | src/main_module.py:286-301 | the history is the newest matching rows: none left out is newer than any returned |
| Queries.Histogram | src/main_module.py:308-310 | `agents[c.agent] = agents.get(c.agent, 0) + 1`: every agent listed has at least one and at most `len(cs)` connections; the exact counts are `HistogramCounts` |
| Queries.HistogramCounts | src/main_module.py:308-310 | the `agents` dictionary names exactly the agents present, each with its number of connections |
| Queries.TotalRemove | src/main_module.py:308-310 | the sum of the counts does not depend on the order the keys are taken in |
| Queries.HistogramTotal | src/main_module.py:308-310 | the agent counts add up to the number of connections tallied |
| Queries.CountAgents | src/main_module.py:308-310 | the tally loop computes `Histogram(get_all())`, whose counts add up to the pool's size |
| Queries.ConnectionStats | src/main_module.py:304-316 | `active_connections` is `count()`, which is `len(get_all())`; `total_ever_connected` is the number of connection rows; `total_messages` is the number of message rows; `agents` is the histogram of the pool, and its counts add up to `active_connections` |

## Left out

- The command-line interface (`build_parser`, `main`, src/main_module.py:319-428) only parses
  arguments and prints, so it is not modelled.
- `get_db` and `_init_schema` are not modelled: directory creation, the DDL, indices, `commit` and
  transactions. They are replaced by the `Database` class, and the table invariants stand in for the
  `UNIQUE` and `PRIMARY KEY` constraints.
- JSON is not modelled. Metadata and message content are opaque strings. `json.dumps(message)` for
  non-string messages and `json.loads` of metadata are identity on them. `metadata or {}` is
  modelled for `None` only: an absent metadata becomes the default string `"{}"`, and any given text
  is stored as it is. In the program, any falsy metadata (an empty dictionary, or a `[]`, `0`,
  `false` or `""` that `json.loads` can produce in the command-line path) is also replaced by `{}`;
  the model does not capture that replacement. All those values except `{}` lie outside the
  `Optional[Dict]` signature.
- ISO-8601 formatting and parsing are not modelled. Timestamps are naturals, and an unparseable
  `last_heartbeat` (the `except` branch of `heartbeat_check`) is `None`, which the sweep reads as
  `now`. `datetime.utcnow()` and SQLite's `datetime('now')` are the `now` parameter.
- `uuid.uuid4()` is modelled as a counter of fresh ids. Only its uniqueness is used.
- `Message.db_id` is never set by the program, so it is not modelled. The `messages` table's own
  AUTOINCREMENT `id` is returned by `get_message_history` (its `SELECT *` rows become dictionaries),
  but `MsgRow` does not model that column; the history rows carry every other column. The
  `heartbeat_log` AUTOINCREMENT id is not modelled either.
- The `status` column only ever holds `'active'` or `'disconnected'` in this program, so `Status`
  has just those two values. The pool is assumed to be hydrated from such a table.
- Connections are values in the model, not shared mutable objects. In the program, a `Connection`
  returned by `get`, `get_all` or `add` is the very object in the pool. Later in-place updates
  (`last_heartbeat`, `message_count`) are therefore visible through it; the model does not capture
  this aliasing.
- Registry.ConnectionPool.constructor: `_load_active` inserts the active rows in the order SQLite
  returns them, which the query leaves unspecified. The model picks an arbitrary order, and only
  the contents of the pool are specified, not its key order.
- Queries.SortNewestFirst: rows with equal `sent_at` come back in an order that SQL leaves
  unspecified. The model fixes one order, and the contracts and lemmas say nothing about ties.
- Liveness.HeartbeatCheck: the `db_conn` parameter of `heartbeat_check` is never used by the
  program (the writes go through the pool's own connection), so it is dropped.
- Delivery.Broadcast: `if filter_fn:` is modelled as "a filter was given". Functions and lambdas
  are always truthy, but a callable object whose `__bool__` returns false, or whose `__len__`
  returns 0, is falsy, and the program then broadcasts to every pooled connection as if no filter
  were given; the model applies such a filter. The filter is a pure `Connection -> bool`; a filter that raises or has side effects is
  not modelled.
- Failing store writes are not modelled: every `Database` method succeeds. In the program
  `execute` and `commit` can raise (a SQLite error, the `UNIQUE` constraint on `msg_id`, or
  `json.dumps` of a value it cannot serialise). `update_heartbeat` (src/main_module.py:158) and
  `increment_message_count` (src/main_module.py:170) change the pooled connection before their
  `UPDATE` runs, so a write that raises there leaves pool and table disagreeing; `Mirrors()` is
  proved only for runs in which every write succeeds.
- Integer and date ranges are not modelled. `heartbeat_check` computes
  `now - timedelta(seconds=timeout)` (src/main_module.py:241), which raises `OverflowError` before
  the loop when the cutoff falls outside years 1 to 9999 (a huge negative or positive `timeout`); the
  model has no such bound and sweeps with the far cutoff (all connections evicted, or none). A stamp
  with a UTC offset parses, but comparing it with the naive cutoff (src/main_module.py:251, outside
  the `try`) raises `TypeError` and stops the sweep part way, after the earlier evictions; the model
  compares every parsed stamp. A `limit` above 2^63 - 1 makes the SQLite binding raise
  (src/main_module.py:295, 299); `Newest` treats it as a bound above the row count and returns every
  row.
- Default arguments are not modelled: every parameter is explicit. The program's defaults are
  `timeout=30` (`heartbeat_check`), `limit=50` (`get_message_history`), `msg_type="broadcast"`
  (`broadcast`), `msg_type="data"` (`send_message` and `Message`) and `latency_ms=None`
  (`update_heartbeat`); calling the model with those values gives the defaulted behaviour.
- Concurrency: the program is single-threaded and takes no locks, so there is nothing to model.
