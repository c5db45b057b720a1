/**
 * Delivery: the free functions that register and drop connections and that
 * write messages, `broadcast` to a filtered snapshot of the pool and
 * `send_message` to one connection.
 */
module Delivery {
  import opened Wrappers
  import opened Store
  import opened Registry

  /** A message as the program builds it; `content` is its JSON (or plain) text. */
  datatype Message = Message(
    content: string,
    senderId: Option<string>,
    recipientId: Option<string>,
    msgType: string,
    msgId: nat,
    sentAt: nat)

  /** The `messages` row persisted for `m`, marked delivered. */
  function MessageRow(m: Message): (r: MsgRow)
    ensures r.msgId == m.msgId && r.recipientId == m.recipientId && r.senderId == m.senderId
    ensures r.delivered
  {
    MsgRow(m.msgId, m.msgType, m.senderId, m.recipientId, m.content, m.sentAt, true)
  }

  /** The rows a broadcast writes: one per recipient, in order, with consecutive fresh ids. */
  function Deliveries(recipients: seq<string>, firstId: nat, msgType: string, senderId: Option<string>,
                      content: string, now: nat): (r: seq<MsgRow>)
    ensures |r| == |recipients|
  {
    if recipients == [] then []
    else [MessageRow(Message(content, senderId, Some(recipients[0]), msgType, firstId, now))]
         + Deliveries(recipients[1..], firstId + 1, msgType, senderId, content, now)
  }

  /** The `i`-th row a broadcast writes is the message to its `i`-th recipient. */
  lemma {:induction false} DeliveriesAt(recipients: seq<string>, firstId: nat, msgType: string,
                                        senderId: Option<string>, content: string, now: nat, i: nat)
    ensures |Deliveries(recipients, firstId, msgType, senderId, content, now)| == |recipients|
    ensures i < |recipients| ==>
      Deliveries(recipients, firstId, msgType, senderId, content, now)[i]
      == MessageRow(Message(content, senderId, Some(recipients[i]), msgType, firstId + i, now))
  {
    if recipients != [] {
      DeliveriesAt(recipients[1..], firstId + 1, msgType, senderId, content, now, if i == 0 then 0 else i - 1);
    }
  }

  /**
   * A broadcast writes one row per recipient, addressed to it, of the given
   * type, sender and content, marked delivered, under distinct fresh ids.
   */
  lemma {:induction false} DeliveriesAddressed(recipients: seq<string>, firstId: nat, msgType: string, senderId: Option<string>,
                            content: string, now: nat)
    ensures var rows := Deliveries(recipients, firstId, msgType, senderId, content, now);
      && |rows| == |recipients|
      && (forall i | 0 <= i < |rows| ::
            && rows[i].recipientId == Some(recipients[i]) && rows[i].delivered
            && rows[i].msgType == msgType && rows[i].senderId == senderId && rows[i].content == content
            && rows[i].sentAt == now && firstId <= rows[i].msgId < firstId + |recipients|)
      && (forall i, j | 0 <= i < j < |rows| :: rows[i].msgId != rows[j].msgId)
  {
    if recipients != [] {
      DeliveriesAddressed(recipients[1..], firstId + 1, msgType, senderId, content, now);
      var rows := Deliveries(recipients, firstId, msgType, senderId, content, now);
      assert rows[1..] == Deliveries(recipients[1..], firstId + 1, msgType, senderId, content, now);
      forall i | 0 < i < |rows| ensures rows[i] == rows[1..][i - 1] && recipients[i] == recipients[1..][i - 1] {}
    }
  }

  /** `add_connection`: register `wsId` as a fresh active connection stamped `now`. */
  method AddConnection(pool: ConnectionPool, wsId: string, agent: string, metadata: Option<string>, now: nat)
    returns (c: Connection)
    requires pool.Valid() && pool.db.ConnectionsValid()
    modifies pool`entries, pool`order, pool.db`connections, pool.db`nextConnId
    ensures pool.Valid() && pool.db.ConnectionsValid()
    ensures c == Connection(wsId, agent, metadata.GetOr("{}"), now, Some(now), Active, 0, Some(old(pool.db.nextConnId)))
    ensures pool.Get(wsId) == Some(c)
    ensures pool.Count() == old(pool.Count()) + (if wsId in old(pool.entries) then 0 else 1)
    ensures forall k | k != wsId :: pool.Get(k) == old(pool.Get(k))
    ensures wsId in pool.db.connections && pool.db.connections[wsId] == ToRow(c, old(pool.db.nextConnId))
    ensures pool.db.connections[wsId].messageCount == 0 && pool.db.connections[wsId].disconnectedAt == None
    ensures pool.db.connections == old(pool.db.connections)[wsId := ToRow(c, old(pool.db.nextConnId))]
    ensures pool.order == if wsId in old(pool.entries) then old(pool.order) else old(pool.order) + [wsId]
    ensures old(pool.Mirrors()) ==> pool.Mirrors()
  {
    c := pool.Add(Connection(wsId, agent, metadata.GetOr("{}"), now, Some(now), Active, 0, None));
  }

  /** `remove_connection`. */
  method RemoveConnection(pool: ConnectionPool, wsId: string, now: nat) returns (removed: bool)
    requires pool.Valid() && pool.db.ConnectionsValid()
    modifies pool`entries, pool`order, pool.db`connections
    ensures pool.Valid() && pool.db.ConnectionsValid()
    ensures removed == (wsId in old(pool.entries))
    ensures pool.Get(wsId) == None
    ensures forall k | k != wsId :: pool.Get(k) == old(pool.Get(k))
    ensures pool.order == Without(old(pool.order), {wsId})
    ensures !removed ==> pool.entries == old(pool.entries) && pool.order == old(pool.order)
    ensures !removed ==> pool.db.connections == old(pool.db.connections)
    ensures removed ==> pool.db.connections == Disconnect(old(pool.db.connections), wsId, now)
    ensures old(pool.Mirrors()) ==> pool.Mirrors()
  {
    removed := pool.Remove(wsId, now);
    if !removed {
      WithoutNothing(old(pool.order), {wsId});
    }
  }

  /** Removing the same connection twice succeeds once, then reports it unknown. */
  method RemoveTwice(pool: ConnectionPool, wsId: string, now: nat) returns (first: bool, second: bool)
    requires pool.Valid() && pool.db.ConnectionsValid()
    modifies pool`entries, pool`order, pool.db`connections
    ensures first == (wsId in old(pool.entries)) && !second
  {
    first := RemoveConnection(pool, wsId, now);
    second := RemoveConnection(pool, wsId, now);
  }

  /** Whether a `broadcast` filter (absent: accept everything) accepts `c`. */
  predicate Accepts(filter: Option<Connection -> bool>, c: Connection) {
    filter.None? || filter.value(c)
  }

  /** `[c for c in cs if f(c)]`. */
  function Select(cs: seq<Connection>, f: Connection -> bool): (r: seq<Connection>)
    ensures |r| <= |cs|
    ensures forall c :: c in r <==> c in cs && f(c)
    ensures forall k | k in Ids(r) :: k in Ids(cs)
    ensures NoDuplicates(Ids(cs)) ==> NoDuplicates(Ids(r))
  {
    if cs == [] then []
    else
      var rest := Select(cs[1..], f);
      assert Ids(cs) == [cs[0].wsId] + Ids(cs[1..]);
      NoDuplicatesCons(cs[0].wsId, Ids(cs[1..]));
      if f(cs[0]) then
        assert ([cs[0]] + rest)[1..] == rest;
        assert Ids([cs[0]] + rest) == [cs[0].wsId] + Ids(rest);
        NoDuplicatesCons(cs[0].wsId, Ids(rest));
        [cs[0]] + rest
      else rest
  }

  /** The target list of `broadcast`: the snapshot, filtered when a filter is given. */
  function Targets(snapshot: seq<Connection>, filter: Option<Connection -> bool>): (r: seq<Connection>)
    ensures forall c :: c in r <==> c in snapshot && Accepts(filter, c)
    ensures NoDuplicates(Ids(snapshot)) ==> NoDuplicates(Ids(r))
  {
    if filter.None? then snapshot else Select(snapshot, filter.value)
  }

  /** Filtering keeps snapshot order: it distributes over concatenation. */
  lemma {:induction false} SelectAppend(a: seq<Connection>, b: seq<Connection>, f: Connection -> bool)
    ensures Select(a + b, f) == Select(a, f) + Select(b, f)
  {
    if a == [] {
      assert a + b == b;
    } else {
      assert (a + b)[0] == a[0];
      assert (a + b)[1..] == a[1..] + b;
      SelectAppend(a[1..], b, f);
    }
  }

  /** The pool with one more message counted for each id in `ids`. */
  function BumpAll(m: map<string, Connection>, ids: seq<string>): (r: map<string, Connection>)
    ensures r.Keys == m.Keys
  {
    map k | k in m :: if k in ids then Bumped(m[k]) else m[k]
  }

  /** The `connections` table with one more message counted for each id in `ids`. */
  function BumpRows(rows: map<string, ConnRow>, ids: seq<string>): (r: map<string, ConnRow>)
    ensures r.Keys == rows.Keys
  {
    map k | k in rows :: if k in ids then rows[k].(messageCount := rows[k].messageCount + 1) else rows[k]
  }

  lemma BumpAllStep(m: map<string, Connection>, ids: seq<string>, x: string)
    requires x !in ids && x in m
    ensures BumpAll(m, ids + [x]) == BumpAll(m, ids)[x := Bumped(BumpAll(m, ids)[x])]
  {
  }

  lemma BumpRowsStep(rows: map<string, ConnRow>, ids: seq<string>, x: string)
    requires x !in ids
    ensures BumpRows(rows, ids + [x]) == Bump(BumpRows(rows, ids), x)
  {
  }

  /** In a duplicate-free list each id occurs once or not at all. */
  lemma {:induction false} NoDuplicatesOnce(ids: seq<string>, k: string)
    requires NoDuplicates(ids)
    ensures multiset(ids)[k] == if k in ids then 1 else 0
  {
    if ids != [] {
      assert ids == [ids[0]] + ids[1..];
      NoDuplicatesCons(ids[0], ids[1..]);
      NoDuplicatesOnce(ids[1..], k);
    }
  }

  /** Delivering to duplicate-free recipients adds, to each pooled connection, the number of messages addressed to it. */
  lemma BumpAllCounts(m: map<string, Connection>, ids: seq<string>)
    requires NoDuplicates(ids)
    ensures forall k | k in m :: BumpAll(m, ids)[k] == m[k].(messageCount := m[k].messageCount + multiset(ids)[k])
  {
    forall k | k in m ensures BumpAll(m, ids)[k] == m[k].(messageCount := m[k].messageCount + multiset(ids)[k]) {
      NoDuplicatesOnce(ids, k);
    }
  }

  /** The same for the `message_count` column of the `connections` table. */
  lemma BumpRowsCounts(rows: map<string, ConnRow>, ids: seq<string>)
    requires NoDuplicates(ids)
    ensures forall k | k in rows :: BumpRows(rows, ids)[k] == rows[k].(messageCount := rows[k].messageCount + multiset(ids)[k])
  {
    forall k | k in rows ensures BumpRows(rows, ids)[k] == rows[k].(messageCount := rows[k].messageCount + multiset(ids)[k]) {
      NoDuplicatesOnce(ids, k);
    }
  }

  lemma {:induction false} DeliveriesStep(recipients: seq<string>, x: string, firstId: nat, msgType: string,
                       senderId: Option<string>, content: string, now: nat)
    ensures Deliveries(recipients + [x], firstId, msgType, senderId, content, now)
         == Deliveries(recipients, firstId, msgType, senderId, content, now)
            + [MessageRow(Message(content, senderId, Some(x), msgType, firstId + |recipients|, now))]
  {
    if recipients != [] {
      assert (recipients + [x])[1..] == recipients[1..] + [x];
      DeliveriesStep(recipients[1..], x, firstId + 1, msgType, senderId, content, now);
    }
  }

  /** Counting messages for pooled ids on both sides keeps the pool and the table in agreement. */
  lemma MirrorsAfterBumps(pool: ConnectionPool, entries: map<string, Connection>, rows: map<string, ConnRow>,
                          ids: seq<string>)
    requires forall k :: k in entries <==> k in rows && rows[k].status == Active
    requires forall k | k in entries :: entries[k] == FromRow(rows[k])
    requires pool.entries == BumpAll(entries, ids) && pool.db.connections == BumpRows(rows, ids)
    ensures pool.Mirrors()
  {
  }

  /**
   * A broadcast reaches each pooled connection its filter accepts exactly
   * once, and no other.
   */
  lemma BroadcastTargetsExactlyAccepted(pool: ConnectionPool, filter: Option<Connection -> bool>)
    requires pool.Valid()
    ensures NoDuplicates(Ids(Targets(pool.GetAll(), filter)))
    ensures forall k :: k in Ids(Targets(pool.GetAll(), filter)) <==>
      k in pool.entries && Accepts(filter, pool.entries[k])
  {
    var snap := pool.GetAll();
    var ids := Ids(Targets(snap, filter));
    forall k ensures k in ids <==> k in pool.entries && Accepts(filter, pool.entries[k]) {
      if k in ids {
        var i :| 0 <= i < |ids| && ids[i] == k;
        var c := Targets(snap, filter)[i];
        assert c in snap;
      }
      if k in pool.entries && Accepts(filter, pool.entries[k]) {
        assert k in Ids(snap);
        var i :| 0 <= i < |snap| && Ids(snap)[i] == k;
        assert snap[i] in Targets(snap, filter);
        var j :| 0 <= j < |Targets(snap, filter)| && Targets(snap, filter)[j] == snap[i];
        assert ids[j] == k;
      }
    }
  }

  /**
   * One delivery, as both `broadcast` and `send_message` make it: a fresh
   * message id, its row inserted as delivered, and one more message counted
   * for the recipient.
   */
  method DeliverTo(pool: ConnectionPool, db: Database, target: string, content: string,
                   msgType: string, senderId: Option<string>, now: nat) returns (m: Message)
    requires pool.Valid() && pool.db.ConnectionsValid() && db.MessagesValid()
    requires target in pool.entries
    modifies pool`entries, pool.db`connections, db`messages, db`nextMsgId
    ensures pool.Valid() && pool.db.ConnectionsValid() && db.MessagesValid()
    ensures m == Message(content, senderId, Some(target), msgType, old(db.nextMsgId), now)
    ensures db.nextMsgId == old(db.nextMsgId) + 1
    ensures db.messages == old(db.messages) + [MessageRow(m)]
    ensures pool.entries == old(pool.entries)[target := Bumped(old(pool.entries)[target])]
    ensures pool.db.connections == Bump(old(pool.db.connections), target)
    ensures old(pool.Mirrors()) ==> pool.Mirrors()
  {
    var msgId := db.FreshMessageId();
    m := Message(content, senderId, Some(target), msgType, msgId, now);
    db.InsertMessage(MessageRow(m));
    pool.IncrementMessageCount(target);
  }

  /** One step of the delivery loop: deliver to `recipients[i]` and extend the running record. */
  method DeliverNext(pool: ConnectionPool, db: Database, recipients: seq<string>, i: nat, done: seq<string>,
                     content: string, msgType: string, senderId: Option<string>, now: nat,
                     ghost entries0: map<string, Connection>, ghost rows0: map<string, ConnRow>,
                     ghost messages0: seq<MsgRow>, ghost firstId: nat)
    requires pool.Valid() && pool.db.ConnectionsValid() && db.MessagesValid()
    requires NoDuplicates(recipients) && i < |recipients| && done == recipients[..i]
    requires forall k | k in recipients :: k in entries0
    requires db.nextMsgId == firstId + i
    requires db.messages == messages0 + Deliveries(done, firstId, msgType, senderId, content, now)
    requires pool.entries == BumpAll(entries0, done)
    requires pool.db.connections == BumpRows(rows0, done)
    modifies pool`entries, pool.db`connections, db`messages, db`nextMsgId
    ensures pool.Valid() && pool.db.ConnectionsValid() && db.MessagesValid()
    ensures db.nextMsgId == firstId + i + 1
    ensures db.messages == messages0 + Deliveries(recipients[..i + 1], firstId, msgType, senderId, content, now)
    ensures pool.entries == BumpAll(entries0, recipients[..i + 1])
    ensures pool.db.connections == BumpRows(rows0, recipients[..i + 1])
  {
    var target := recipients[i];
    assert recipients[..i + 1] == done + [target];
    assert target !in done;
    var m := DeliverTo(pool, db, target, content, msgType, senderId, now);
    DeliveriesStep(done, target, firstId, msgType, senderId, content, now);
    BumpAllStep(entries0, done, target);
    BumpRowsStep(rows0, done, target);
  }

  /**
   * The delivery loop shared by `broadcast`: one message per recipient, in order, each
   * counted against its connection in memory and in the table.
   */
  method DeliverEach(pool: ConnectionPool, db: Database, recipients: seq<string>, content: string,
                     msgType: string, senderId: Option<string>, now: nat) returns (deliveredTo: seq<string>)
    requires pool.Valid() && pool.db.ConnectionsValid() && db.MessagesValid()
    requires NoDuplicates(recipients)
    requires forall k | k in recipients :: k in pool.entries
    modifies pool`entries, pool.db`connections, db`messages, db`nextMsgId
    ensures pool.Valid() && pool.db.ConnectionsValid() && db.MessagesValid()
    ensures deliveredTo == recipients
    ensures db.messages == old(db.messages) + Deliveries(recipients, old(db.nextMsgId), msgType, senderId, content, now)
    ensures pool.entries == BumpAll(old(pool.entries), recipients)
    ensures pool.db.connections == BumpRows(old(pool.db.connections), recipients)
    ensures old(pool.Mirrors()) ==> pool.Mirrors()
  {
    deliveredTo := [];
    ghost var entries0, rows0, messages0, firstId := pool.entries, pool.db.connections, db.messages, db.nextMsgId;
    assert recipients[..0] == [] && BumpAll(entries0, []) == entries0 && BumpRows(rows0, []) == rows0;
    for i := 0 to |recipients|
      invariant pool.Valid() && pool.db.ConnectionsValid() && db.MessagesValid()
      invariant deliveredTo == recipients[..i]
      invariant db.nextMsgId == firstId + i
      invariant db.messages == messages0 + Deliveries(deliveredTo, firstId, msgType, senderId, content, now)
      invariant pool.entries == BumpAll(entries0, deliveredTo)
      invariant pool.db.connections == BumpRows(rows0, deliveredTo)
    {
      DeliverNext(pool, db, recipients, i, deliveredTo, content, msgType, senderId, now,
                  entries0, rows0, messages0, firstId);
      deliveredTo := recipients[..i + 1];
    }
    assert recipients[..|recipients|] == recipients;
    if old(pool.Mirrors()) {
      MirrorsAfterBumps(pool, entries0, rows0, recipients);
    }
  }

  /** `broadcast`: deliver to the filtered snapshot, in snapshot order. */
  method Broadcast(pool: ConnectionPool, db: Database, content: string, filter: Option<Connection -> bool>,
                   msgType: string, senderId: Option<string>, now: nat) returns (deliveredTo: seq<string>)
    requires pool.Valid() && pool.db.ConnectionsValid() && db.MessagesValid()
    modifies pool`entries, pool.db`connections, db`messages, db`nextMsgId
    ensures pool.Valid() && pool.db.ConnectionsValid() && db.MessagesValid()
    ensures deliveredTo == Ids(Targets(old(pool.GetAll()), filter))
    ensures db.messages == old(db.messages) + Deliveries(deliveredTo, old(db.nextMsgId), msgType, senderId, content, now)
    ensures pool.entries == BumpAll(old(pool.entries), deliveredTo)
    ensures pool.db.connections == BumpRows(old(pool.db.connections), deliveredTo)
    ensures old(pool.Mirrors()) ==> pool.Mirrors()
  {
    var targets := Targets(pool.GetAll(), filter);
    BroadcastTargetsExactlyAccepted(pool, filter);
    deliveredTo := DeliverEach(pool, db, Ids(targets), content, msgType, senderId, now);
  }

  /** `send_message`: a direct message to a pooled connection, or `None` (and no write) otherwise. */
  method SendMessage(pool: ConnectionPool, db: Database, wsId: string, content: string, msgType: string,
                     senderId: Option<string>, now: nat) returns (m: Option<Message>)
    requires pool.Valid() && pool.db.ConnectionsValid() && db.MessagesValid()
    modifies pool`entries, pool.db`connections, db`messages, db`nextMsgId
    ensures pool.Valid() && pool.db.ConnectionsValid() && db.MessagesValid()
    ensures m.Some? <==> wsId in old(pool.entries)
    ensures m.None? ==> pool.entries == old(pool.entries) && pool.db.connections == old(pool.db.connections)
    ensures m.None? ==> db.messages == old(db.messages) && db.nextMsgId == old(db.nextMsgId)
    ensures m.Some? ==> m.value == Message(content, senderId, Some(wsId), msgType, old(db.nextMsgId), now)
    ensures m.Some? ==> db.messages == old(db.messages) + [MessageRow(m.value)]
    ensures m.Some? ==> pool.entries == old(pool.entries)[wsId := Bumped(old(pool.entries)[wsId])]
    ensures m.Some? ==> pool.db.connections == Bump(old(pool.db.connections), wsId)
    ensures old(pool.Mirrors()) ==> pool.Mirrors()
  {
    var found := pool.Get(wsId);
    if found.None? {
      return None;
    }
    var msg := DeliverTo(pool, db, wsId, content, msgType, senderId, now);
    m := Some(msg);
  }
}
