/**
 * The durable store: the three SQLite tables `connections`, `messages` and
 * `heartbeat_log`, each SQL statement the core issues written as one method.
 * Timestamps are seconds (naturals); the store's `datetime('now')` is the
 * caller's `now` parameter.
 */
module Store {
  import opened Wrappers

  /** Value of the `status` column of `connections`. */
  datatype Status = Active | Disconnected

  /** One row of `connections`. `id` is the AUTOINCREMENT row id; `wsId` is UNIQUE. */
  datatype ConnRow = ConnRow(
    id: nat,
    wsId: string,
    agent: string,
    metadata: string,
    connectedAt: nat,
    lastHeartbeat: Option<nat>,
    status: Status,
    messageCount: nat,
    disconnectedAt: Option<nat>)

  /** One row of `messages`. `msgId` is UNIQUE; `delivered` is the 0/1 column. */
  datatype MsgRow = MsgRow(
    msgId: nat,
    msgType: string,
    senderId: Option<string>,
    recipientId: Option<string>,
    content: string,
    sentAt: nat,
    delivered: bool)

  /** One row of `heartbeat_log`. */
  datatype HbRow = HbRow(wsId: string, ts: nat, latencyMs: Option<int>)

  /** Each row of `connections` is filed under its own `ws_id`, with a row id below the next one. */
  ghost predicate RowsFiled(connections: map<string, ConnRow>, nextConnId: nat) {
    forall k | k in connections :: connections[k].wsId == k && connections[k].id < nextConnId
  }

  /** Message ids are unique and below the next fresh one, so a fresh id is new to the table. */
  ghost predicate IdsFresh(messages: seq<MsgRow>, nextMsgId: nat) {
    && (forall i | 0 <= i < |messages| :: messages[i].msgId < nextMsgId)
    && (forall i, j | 0 <= i < j < |messages| :: messages[i].msgId != messages[j].msgId)
  }

  /** `UPDATE connections SET status='disconnected', disconnected_at=now WHERE ws_id=?` */
  function Disconnect(connections: map<string, ConnRow>, wsId: string, now: nat): (r: map<string, ConnRow>)
    ensures r.Keys == connections.Keys
    ensures forall k | k in r && k != wsId :: r[k] == connections[k]
  {
    if wsId in connections then
      connections[wsId := connections[wsId].(status := Disconnected, disconnectedAt := Some(now))]
    else connections
  }

  /** `UPDATE connections SET last_heartbeat=? WHERE ws_id=?` */
  function SetHeartbeat(connections: map<string, ConnRow>, wsId: string, ts: nat): (r: map<string, ConnRow>)
    ensures r.Keys == connections.Keys
    ensures forall k | k in r && k != wsId :: r[k] == connections[k]
  {
    if wsId in connections then connections[wsId := connections[wsId].(lastHeartbeat := Some(ts))]
    else connections
  }

  /** `UPDATE connections SET message_count=message_count+1 WHERE ws_id=?` */
  function Bump(connections: map<string, ConnRow>, wsId: string): (r: map<string, ConnRow>)
    ensures r.Keys == connections.Keys
    ensures forall k | k in r && k != wsId :: r[k] == connections[k]
  {
    if wsId in connections then
      connections[wsId := connections[wsId].(messageCount := connections[wsId].messageCount + 1)]
    else connections
  }

  /**
   * The open database: the three tables and the two id sources. The table
   * invariants are kept per table, so a statement on one table leaves the
   * other's untouched.
   */
  class Database {
    var connections: map<string, ConnRow>
    var messages: seq<MsgRow>
    var heartbeatLog: seq<HbRow>
    /** The next AUTOINCREMENT id of `connections`. */
    var nextConnId: nat
    /** The next fresh message id (a random UUID in the program). */
    var nextMsgId: nat

    /** The invariant of `connections`. */
    ghost predicate ConnectionsValid()
      reads this`connections, this`nextConnId
    {
      RowsFiled(connections, nextConnId)
    }

    /** The invariant of `messages`. */
    ghost predicate MessagesValid()
      reads this`messages, this`nextMsgId
    {
      IdsFresh(messages, nextMsgId)
    }

    /** Opens a store holding the given tables (all empty for a new database file). */
    constructor Open(connections: map<string, ConnRow>, messages: seq<MsgRow>, heartbeatLog: seq<HbRow>,
                     nextConnId: nat, nextMsgId: nat)
      requires RowsFiled(connections, nextConnId) && IdsFresh(messages, nextMsgId)
      ensures ConnectionsValid() && MessagesValid()
      ensures this.connections == connections && this.messages == messages
      ensures this.heartbeatLog == heartbeatLog
      ensures this.nextConnId == nextConnId && this.nextMsgId == nextMsgId
    {
      this.connections := connections;
      this.messages := messages;
      this.heartbeatLog := heartbeatLog;
      this.nextConnId := nextConnId;
      this.nextMsgId := nextMsgId;
    }

    /**
     * `INSERT OR REPLACE INTO connections(...)`: any row with this `ws_id` is
     * deleted and a new one, with a new id and no `disconnected_at`, is inserted.
     * Returns `lastrowid`.
     */
    method Upsert(wsId: string, agent: string, metadata: string, connectedAt: nat,
                  lastHeartbeat: Option<nat>, status: Status, messageCount: nat) returns (id: nat)
      requires ConnectionsValid()
      modifies this`connections, this`nextConnId
      ensures ConnectionsValid()
      ensures id == old(nextConnId) && nextConnId == id + 1
      ensures connections == old(connections)[wsId := ConnRow(id, wsId, agent, metadata, connectedAt,
                                                              lastHeartbeat, status, messageCount, None)]
    {
      id := nextConnId;
      connections := connections[wsId := ConnRow(id, wsId, agent, metadata, connectedAt,
                                                 lastHeartbeat, status, messageCount, None)];
      nextConnId := nextConnId + 1;
    }

    /** `UPDATE connections SET status='disconnected', disconnected_at=datetime('now') WHERE ws_id=?` */
    method MarkDisconnected(wsId: string, now: nat)
      requires ConnectionsValid()
      modifies this`connections
      ensures ConnectionsValid()
      ensures connections == Disconnect(old(connections), wsId, now)
    {
      connections := Disconnect(connections, wsId, now);
    }

    /** `UPDATE connections SET last_heartbeat=? WHERE ws_id=?` */
    method UpdateHeartbeat(wsId: string, ts: nat)
      requires ConnectionsValid()
      modifies this`connections
      ensures ConnectionsValid()
      ensures connections == SetHeartbeat(old(connections), wsId, ts)
    {
      connections := SetHeartbeat(connections, wsId, ts);
    }

    /** `UPDATE connections SET message_count=message_count+1 WHERE ws_id=?` */
    method IncrementMessageCount(wsId: string)
      requires ConnectionsValid()
      modifies this`connections
      ensures ConnectionsValid()
      ensures connections == Bump(old(connections), wsId)
    {
      connections := Bump(connections, wsId);
    }

    /** `INSERT INTO heartbeat_log(ws_id, latency_ms) VALUES(?,?)`, `ts` defaulting to now. */
    method LogHeartbeat(wsId: string, latencyMs: Option<int>, now: nat)
      modifies this`heartbeatLog
      ensures heartbeatLog == old(heartbeatLog) + [HbRow(wsId, now, latencyMs)]
    {
      heartbeatLog := heartbeatLog + [HbRow(wsId, now, latencyMs)];
    }

    /** Draws a message id never used before (`uuid.uuid4()` in the program). */
    method FreshMessageId() returns (id: nat)
      requires MessagesValid()
      modifies this`nextMsgId
      ensures MessagesValid()
      ensures id == old(nextMsgId) && nextMsgId == id + 1
      ensures forall i | 0 <= i < |messages| :: messages[i].msgId != id
    {
      id := nextMsgId;
      nextMsgId := nextMsgId + 1;
    }

    /** `INSERT INTO messages(...) VALUES(..., 1)` of a row whose id is fresh. */
    method InsertMessage(row: MsgRow)
      requires MessagesValid()
      requires row.msgId < nextMsgId
      requires forall i | 0 <= i < |messages| :: messages[i].msgId != row.msgId
      modifies this`messages
      ensures MessagesValid()
      ensures messages == old(messages) + [row]
    {
      messages := messages + [row];
    }
  }
}
