/**
 * The connection registry: the `Connection` record and `ConnectionPool`, an
 * in-memory dictionary of the active connections mirrored onto the
 * `connections` table of a `Database`.
 */
module Registry {
  import opened Wrappers
  import opened Store

  /** A WebSocket session. `metadata` is the JSON text of the caller's dictionary. */
  datatype Connection = Connection(
    wsId: string,
    agent: string,
    metadata: string,
    connectedAt: nat,
    lastHeartbeat: Option<nat>,
    status: Status,
    messageCount: nat,
    dbId: Option<nat>)

  /** The row `ConnectionPool.add` writes for `c` under row id `id`. */
  function ToRow(c: Connection, id: nat): (r: ConnRow)
    ensures r.wsId == c.wsId && r.id == id
    ensures r.disconnectedAt == None
  {
    ConnRow(id, c.wsId, c.agent, c.metadata, c.connectedAt, c.lastHeartbeat, c.status, c.messageCount, None)
  }

  /** `_row_to_connection`. */
  function FromRow(r: ConnRow): (c: Connection)
    ensures c.wsId == r.wsId && c.dbId == Some(r.id)
  {
    Connection(r.wsId, r.agent, r.metadata, r.connectedAt, r.lastHeartbeat, r.status, r.messageCount, Some(r.id))
  }

  /** Two rows read back as the same connection exactly when they differ at most in `disconnected_at`. */
  lemma FromRowForgetsDisconnect(r: ConnRow, r': ConnRow)
    ensures FromRow(r) == FromRow(r') <==> r' == r.(disconnectedAt := r'.disconnectedAt)
  {
  }

  /** Reading back the row written for `c` yields `c` carrying the row id. */
  lemma ReadBackAfterWrite(c: Connection, id: nat)
    ensures FromRow(ToRow(c, id)) == c.(dbId := Some(id))
  {
  }

  /** Writing a loaded row back reproduces it, unless it carried a `disconnected_at`. */
  lemma WriteBackAfterRead(r: ConnRow)
    ensures ToRow(FromRow(r), r.id) == r <==> r.disconnectedAt == None
  {
  }

  /** The connection with one more delivered message. */
  function Bumped(c: Connection): Connection {
    c.(messageCount := c.messageCount + 1)
  }

  ghost predicate NoDuplicates(s: seq<string>) {
    forall i, j | 0 <= i < j < |s| :: s[i] != s[j]
  }

  lemma NoDuplicatesCons(x: string, t: seq<string>)
    ensures NoDuplicates([x] + t) <==> x !in t && NoDuplicates(t)
  {
    if x !in t && NoDuplicates(t) {
      forall i, j | 0 <= i < j < |[x] + t| ensures ([x] + t)[i] != ([x] + t)[j] {
        if i > 0 {
          assert ([x] + t)[i] == t[i - 1];
        }
      }
    }
    if NoDuplicates([x] + t) {
      forall i, j | 0 <= i < j < |t| ensures t[i] != t[j] {
        assert t[i] == ([x] + t)[i + 1] && t[j] == ([x] + t)[j + 1];
      }
      forall k | 0 <= k < |t| ensures t[k] != x {
        assert t[k] == ([x] + t)[k + 1] && x == ([x] + t)[0];
      }
    }
  }

  /** The ids of a list of connections, in order. */
  function Ids(cs: seq<Connection>): (ids: seq<string>)
    ensures |ids| == |cs|
    ensures forall i {:trigger ids[i]} | 0 <= i < |cs| :: ids[i] == cs[i].wsId
  {
    if cs == [] then [] else [cs[0].wsId] + Ids(cs[1..])
  }

  lemma {:induction false} IdsAppend(a: seq<Connection>, b: seq<Connection>)
    ensures Ids(a + b) == Ids(a) + Ids(b)
  {
    assert forall i | 0 <= i < |a + b| :: Ids(a + b)[i] == (Ids(a) + Ids(b))[i];
  }

  /** `s` without the elements of `gone`, order kept: a dict's key order after deletions. */
  function Without(s: seq<string>, gone: set<string>): (r: seq<string>)
    ensures forall x :: x in r <==> x in s && x !in gone
    ensures NoDuplicates(s) ==> NoDuplicates(r)
  {
    if s == [] then []
    else if s[0] in gone then Without(s[1..], gone)
    else
      var tail := Without(s[1..], gone);
      assert NoDuplicates(s) ==> s[0] !in s[1..] && NoDuplicates(s[1..]);
      [s[0]] + tail
  }

  /** Deleting keys keeps the survivors in order: it distributes over concatenation. */
  lemma {:induction false} WithoutAppend(a: seq<string>, b: seq<string>, gone: set<string>)
    ensures Without(a + b, gone) == Without(a, gone) + Without(b, gone)
  {
    if a == [] {
      assert a + b == b;
    } else {
      assert (a + b)[0] == a[0];
      assert (a + b)[1..] == a[1..] + b;
      WithoutAppend(a[1..], b, gone);
    }
  }

  lemma {:induction false} WithoutTwice(s: seq<string>, a: set<string>, b: set<string>)
    ensures Without(Without(s, a), b) == Without(s, a + b)
  {
    if s != [] {
      WithoutTwice(s[1..], a, b);
      if s[0] !in a {
        assert Without(s, a)[1..] == Without(s[1..], a);
      }
    }
  }

  lemma {:induction false} WithoutNothing(s: seq<string>, gone: set<string>)
    requires forall x | x in s :: x !in gone
    ensures Without(s, gone) == s
  {
    if s != [] {
      WithoutNothing(s[1..], gone);
    }
  }

  /** A list without duplicates has as many distinct elements as it is long. */
  lemma {:induction false} DistinctCardinality(s: seq<string>)
    requires NoDuplicates(s)
    ensures |set x | x in s| == |s|
  {
    if s != [] {
      DistinctCardinality(s[1..]);
      assert (set x | x in s) == {s[0]} + (set x | x in s[1..]);
    }
  }

  /** The entries of `m` under `keys`, in the order of `keys`. */
  function Lookup(m: map<string, Connection>, keys: seq<string>): seq<Connection>
    requires forall k | k in keys :: k in m
  {
    seq(|keys|, i requires 0 <= i < |keys| => m[keys[i]])
  }

  class ConnectionPool {
    /** The store handle the pool writes through (`_conn`). */
    const db: Database
    /** `_pool`: the active connections by `ws_id`. */
    var entries: map<string, Connection>
    /** The key order of `_pool` (insertion order of a Python dictionary). */
    var order: seq<string>

    ghost predicate Valid()
      reads this`entries, this`order
    {
      && NoDuplicates(order)
      && (forall k :: k in entries <==> k in order)
      && (forall k | k in entries :: entries[k].wsId == k)
    }

    /**
     * Pool/table agreement: the pool holds exactly the rows whose status is
     * active, each as `_row_to_connection` reads it.
     */
    ghost predicate Mirrors()
      reads this`entries, db`connections
    {
      && (forall k :: k in entries <==> k in db.connections && db.connections[k].status == Active)
      && (forall k | k in entries :: entries[k] == FromRow(db.connections[k]))
    }

    /** `__init__` and `_load_active`: hydrate the pool from the active rows. */
    constructor (db: Database)
      requires db.ConnectionsValid()
      ensures this.db == db
      ensures Valid() && Mirrors()
    {
      this.db := db;
      entries := map[];
      order := [];
      new;
      var pending := set k | k in db.connections && db.connections[k].status == Active;
      while pending != {}
        invariant Valid()
        invariant forall k :: k in entries <==> k in db.connections && db.connections[k].status == Active && k !in pending
        invariant forall k | k in pending :: k in db.connections && db.connections[k].status == Active
        invariant forall k | k in entries :: entries[k] == FromRow(db.connections[k])
        decreases pending
      {
        var k :| k in pending;
        entries := entries[k := FromRow(db.connections[k])];
        order := order + [k];
        pending := pending - {k};
      }
    }

    /** `get`: a lookup in the pool only; the table is not consulted. */
    function Get(wsId: string): (r: Option<Connection>)
      reads this
      ensures Valid() ==> (r.Some? <==> wsId in order)
      ensures Valid() && r.Some? ==> r.value.wsId == wsId
    {
      if wsId in entries then Some(entries[wsId]) else None
    }

    /** `get_all`: a snapshot of the pool's connections in key order. */
    function GetAll(): (cs: seq<Connection>)
      reads this
      requires Valid()
      ensures Ids(cs) == order
      ensures forall i | 0 <= i < |cs| :: cs[i].wsId in entries && cs[i] == entries[cs[i].wsId]
    {
      Lookup(entries, order)
    }

    /** `count`: the number of pooled connections, which is the length of the snapshot. */
    function Count(): (n: nat)
      reads this
      requires Valid()
      ensures n == |GetAll()| == |order|
    {
      assert entries.Keys == set x | x in order;
      DistinctCardinality(order);
      |entries|
    }

    /**
     * `add`: upsert the row (replacing it wholesale) and put `c` in the pool,
     * keeping the key's old position if it was already pooled.
     */
    method Add(c: Connection) returns (r: Connection)
      requires Valid() && db.ConnectionsValid()
      modifies this`entries, this`order, db`connections, db`nextConnId
      ensures Valid() && db.ConnectionsValid()
      ensures r == c.(dbId := Some(old(db.nextConnId)))
      ensures entries == old(entries)[c.wsId := r]
      ensures order == if c.wsId in old(entries) then old(order) else old(order) + [c.wsId]
      ensures db.connections == old(db.connections)[c.wsId := ToRow(c, old(db.nextConnId))]
      ensures old(Mirrors()) && c.status == Active ==> Mirrors()
    {
      var id := db.Upsert(c.wsId, c.agent, c.metadata, c.connectedAt, c.lastHeartbeat, c.status, c.messageCount);
      r := c.(dbId := Some(id));
      if c.wsId !in entries {
        order := order + [c.wsId];
      }
      entries := entries[c.wsId := r];
      ReadBackAfterWrite(c, id);
    }

    /** `remove`: mark the row disconnected and evict the key; false if it was not pooled. */
    method Remove(wsId: string, now: nat) returns (removed: bool)
      requires Valid() && db.ConnectionsValid()
      modifies this`entries, this`order, db`connections
      ensures Valid() && db.ConnectionsValid()
      ensures removed == (wsId in old(entries))
      ensures entries == old(entries) - {wsId}
      ensures order == Without(old(order), {wsId})
      ensures db.connections == if removed then Disconnect(old(db.connections), wsId, now) else old(db.connections)
      ensures old(Mirrors()) ==> Mirrors()
    {
      if wsId !in entries {
        WithoutNothing(order, {wsId});
        return false;
      }
      db.MarkDisconnected(wsId, now);
      entries := entries - {wsId};
      order := Without(order, {wsId});
      removed := true;
    }

    /** `update_heartbeat`: stamp a pooled connection and log the heartbeat; false otherwise. */
    method UpdateHeartbeat(wsId: string, latencyMs: Option<int>, now: nat) returns (ok: bool)
      requires Valid() && db.ConnectionsValid()
      modifies this`entries, db`connections, db`heartbeatLog
      ensures Valid() && db.ConnectionsValid()
      ensures ok == (wsId in old(entries))
      ensures ok ==> entries == old(entries)[wsId := old(entries)[wsId].(lastHeartbeat := Some(now))]
      ensures ok ==> db.connections == SetHeartbeat(old(db.connections), wsId, now)
      ensures ok ==> db.heartbeatLog == old(db.heartbeatLog) + [HbRow(wsId, now, latencyMs)]
      ensures !ok ==> entries == old(entries) && db.connections == old(db.connections)
      ensures !ok ==> db.heartbeatLog == old(db.heartbeatLog)
      ensures old(Mirrors()) ==> Mirrors()
    {
      if wsId !in entries {
        return false;
      }
      db.UpdateHeartbeat(wsId, now);
      db.LogHeartbeat(wsId, latencyMs, now);
      entries := entries[wsId := entries[wsId].(lastHeartbeat := Some(now))];
      ok := true;
    }

    /** `increment_message_count`: one more message for a pooled connection; nothing otherwise. */
    method IncrementMessageCount(wsId: string)
      requires Valid() && db.ConnectionsValid()
      modifies this`entries, db`connections
      ensures Valid() && db.ConnectionsValid()
      ensures wsId in old(entries) ==> entries == old(entries)[wsId := Bumped(old(entries)[wsId])]
      ensures wsId in old(entries) ==> db.connections == Bump(old(db.connections), wsId)
      ensures wsId !in old(entries) ==> entries == old(entries) && db.connections == old(db.connections)
      ensures old(Mirrors()) ==> Mirrors()
    {
      if wsId in entries {
        entries := entries[wsId := Bumped(entries[wsId])];
        db.IncrementMessageCount(wsId);
      }
    }
  }

  /** `get` answers "not found" for every id that is not active in the table, disconnected rows included. */
  lemma GetSeesOnlyActive(pool: ConnectionPool, wsId: string)
    requires pool.Mirrors()
    ensures pool.Get(wsId).Some? <==> wsId in pool.db.connections && pool.db.connections[wsId].status == Active
    ensures pool.Get(wsId).Some? ==> pool.Get(wsId).value == FromRow(pool.db.connections[wsId])
  {
  }

  /** Every pooled connection of an agreeing pool is active. */
  lemma MirroredEntriesActive(pool: ConnectionPool)
    requires pool.Mirrors()
    ensures forall k | k in pool.entries :: pool.entries[k].status == Active
  {
  }
}
