/**
 * Liveness: `heartbeat_check`, which walks a snapshot of the pool, evicts
 * every connection whose last heartbeat is older than the cutoff and reports
 * which ids stayed and which timed out.
 */
module Liveness {
  import opened Wrappers
  import opened Store
  import opened Registry
  import opened Delivery

  /**
   * The instant a connection last beat. An unparseable stamp (`None`) counts
   * as "now", so it is never older than a non-negative timeout.
   */
  function HeartbeatInstant(c: Connection, now: nat): nat {
    match c.lastHeartbeat
    case Some(t) => t
    case None => now
  }

  /** The eviction test: strictly older than `now - timeout`. */
  predicate TimedOut(c: Connection, timeout: int, now: nat): (r: bool)
    ensures c.lastHeartbeat.Some? ==> (r <==> c.lastHeartbeat.value + timeout < now)
    ensures c.lastHeartbeat.None? ==> (r <==> timeout < 0)
  {
    HeartbeatInstant(c, now) < now - timeout
  }

  /** The filters that pick the survivors and the evicted connections. */
  function Live(timeout: int, now: nat): Connection -> bool {
    c => !TimedOut(c, timeout, now)
  }

  function Stale(timeout: int, now: nat): Connection -> bool {
    c => TimedOut(c, timeout, now)
  }

  /** The set of ids in `ids`. */
  function Gone(ids: seq<string>): set<string> {
    set k | k in ids
  }

  /**
   * The `(active, timed_out)` report for a snapshot, built from the front the
   * way the loop builds it: each connection lands at the end of one list.
   */
  function Split(cs: seq<Connection>, timeout: int, now: nat): (p: (seq<string>, seq<string>))
    ensures |p.0| + |p.1| == |cs|
    ensures forall k | k in p.0 || k in p.1 :: k in Ids(cs)
  {
    if cs == [] then ([], [])
    else
      var init := cs[..|cs| - 1];
      var c := cs[|cs| - 1];
      var p := Split(init, timeout, now);
      assert Ids(cs) == Ids(init) + [c.wsId] by {
        assert cs == init + [c];
        IdsAppend(init, [c]);
      }
      if TimedOut(c, timeout, now) then (p.0, p.1 + [c.wsId]) else (p.0 + [c.wsId], p.1)
  }

  /** `UPDATE connections SET status='disconnected' …` for each id, in order. */
  function DisconnectAll(connections: map<string, ConnRow>, ids: seq<string>, now: nat): (r: map<string, ConnRow>)
    ensures r.Keys == connections.Keys
  {
    if ids == [] then connections
    else Disconnect(DisconnectAll(connections, ids[..|ids| - 1], now), ids[|ids| - 1], now)
  }

  /** Each named row is marked disconnected at `now`; every other row is untouched. */
  lemma {:induction false} DisconnectAllRows(connections: map<string, ConnRow>, ids: seq<string>, now: nat)
    ensures forall k | k in connections ::
      DisconnectAll(connections, ids, now)[k]
      == if k in ids then connections[k].(status := Disconnected, disconnectedAt := Some(now)) else connections[k]
  {
    if ids != [] {
      var init := ids[..|ids| - 1];
      DisconnectAllRows(connections, init, now);
      assert ids == init + [ids[|ids| - 1]];
      forall k | k in connections
        ensures k in ids <==> k in init || k == ids[|ids| - 1]
      {
      }
    }
  }

  /** `s + [x]` is duplicate-free exactly when `x` is new to a duplicate-free `s`. */
  lemma NoDuplicatesSnoc(s: seq<string>, x: string)
    ensures NoDuplicates(s + [x]) <==> x !in s && NoDuplicates(s)
  {
    if NoDuplicates(s + [x]) {
      forall i | 0 <= i < |s| ensures s[i] != x {
        assert (s + [x])[i] == s[i] && (s + [x])[|s|] == x;
      }
      forall i, j | 0 <= i < j < |s| ensures s[i] != s[j] {
        assert (s + [x])[i] == s[i] && (s + [x])[j] == s[j];
      }
    }
  }

  /**
   * `active ++ timed_out` splits the snapshot's ids into two disjoint,
   * duplicate-free lists, and an id is timed out exactly when its
   * connection fails the cutoff; an unparseable stamp with a non-negative
   * timeout, or a stamp exactly at the cutoff, stays active.
   */
  lemma {:induction false} SplitPartition(cs: seq<Connection>, timeout: int, now: nat)
    requires NoDuplicates(Ids(cs))
    ensures var p := Split(cs, timeout, now);
      && NoDuplicates(p.0) && NoDuplicates(p.1)
      && (forall k :: k in Ids(cs) <==> k in p.0 || k in p.1)
      && (forall k | k in p.0 :: k !in p.1)
      && (forall i | 0 <= i < |cs| :: cs[i].wsId in p.1 <==> TimedOut(cs[i], timeout, now))
      && (forall i | 0 <= i < |cs| && HeartbeatInstant(cs[i], now) == now - timeout :: cs[i].wsId in p.0)
      && (forall i | 0 <= i < |cs| && cs[i].lastHeartbeat.None? && timeout >= 0 :: cs[i].wsId in p.0)
  {
    var p := Split(cs, timeout, now);
    if cs != [] {
      var init := cs[..|cs| - 1];
      var c := cs[|cs| - 1];
      assert cs == init + [c];
      IdsAppend(init, [c]);
      assert Ids(cs) == Ids(init) + [c.wsId];
      NoDuplicatesSnoc(Ids(init), c.wsId);
      SplitPartition(init, timeout, now);
      var q := Split(init, timeout, now);
      assert c.wsId !in q.0 && c.wsId !in q.1;
      NoDuplicatesSnoc(q.0, c.wsId);
      NoDuplicatesSnoc(q.1, c.wsId);
      forall i | 0 <= i < |cs|
        ensures cs[i].wsId in p.1 <==> TimedOut(cs[i], timeout, now)
        ensures cs[i].wsId in p.0 <==> !TimedOut(cs[i], timeout, now)
      {
        if i < |init| {
          assert cs[i] == init[i];
          assert Ids(init)[i] == cs[i].wsId;
          assert cs[i].wsId != c.wsId;
        }
      }
    }
  }

  /** The report is the snapshot filtered both ways, in snapshot order. */
  lemma {:induction false} SplitIsFilter(cs: seq<Connection>, timeout: int, now: nat)
    ensures Split(cs, timeout, now) == (Ids(Select(cs, Live(timeout, now))), Ids(Select(cs, Stale(timeout, now))))
  {
    if cs == [] {
      assert Select(cs, Live(timeout, now)) == [] && Select(cs, Stale(timeout, now)) == [];
    } else {
      var init := cs[..|cs| - 1];
      var c := cs[|cs| - 1];
      var live, stale := Live(timeout, now), Stale(timeout, now);
      assert cs == init + [c];
      SplitIsFilter(init, timeout, now);
      SelectAppend(init, [c], live);
      SelectAppend(init, [c], stale);
      assert [c][1..] == [];
      assert Select([c], live) == if live(c) then [c] else [];
      assert Select([c], stale) == if stale(c) then [c] else [];
      IdsAppend(Select(init, live), Select([c], live));
      IdsAppend(Select(init, stale), Select([c], stale));
      var p := Split(init, timeout, now);
      assert live(c) == !TimedOut(c, timeout, now) && stale(c) == TimedOut(c, timeout, now);
      assert Ids([c]) == [c.wsId] && Ids([]) == [];
      assert Ids(Select(cs, live)) == p.0 + (if live(c) then [c.wsId] else []);
      assert Ids(Select(cs, stale)) == p.1 + (if stale(c) then [c.wsId] else []);
      if TimedOut(c, timeout, now) {
        assert Split(cs, timeout, now) == (p.0, p.1 + [c.wsId]);
        assert p.0 + [] == p.0;
      } else {
        assert Split(cs, timeout, now) == (p.0 + [c.wsId], p.1);
        assert p.1 + [] == p.1;
      }
    }
  }

  /** The report for one more connection of the snapshot. */
  lemma SplitStep(cs: seq<Connection>, i: nat, timeout: int, now: nat)
    requires i < |cs|
    ensures var p := Split(cs[..i], timeout, now);
      Split(cs[..i + 1], timeout, now)
      == if TimedOut(cs[i], timeout, now) then (p.0, p.1 + [cs[i].wsId]) else (p.0 + [cs[i].wsId], p.1)
  {
    assert cs[..i + 1][..i] == cs[..i];
  }

  /** Evicting one more id extends the removed set in the pool, its order and the table. */
  lemma EvictStep(entries0: map<string, Connection>, order0: seq<string>, rows0: map<string, ConnRow>,
                  t: seq<string>, x: string, now: nat)
    ensures (entries0 - Gone(t)) - {x} == entries0 - Gone(t + [x])
    ensures Without(Without(order0, Gone(t)), {x}) == Without(order0, Gone(t + [x]))
    ensures Disconnect(DisconnectAll(rows0, t, now), x, now) == DisconnectAll(rows0, t + [x], now)
  {
    assert (t + [x])[..|t + [x]| - 1] == t;
    assert Gone(t + [x]) == Gone(t) + {x};
    WithoutTwice(order0, Gone(t), {x});
  }

  /** Ids later in a duplicate-free list differ from the one at `i`. */
  lemma LaterDiffer(ids: seq<string>, i: nat)
    requires NoDuplicates(ids) && i < |ids|
    ensures forall j | i < j < |ids| :: ids[j] != ids[i]
  {
  }

  /** Before the first step nothing is evicted and the report is empty. */
  lemma CheckStart(entries0: map<string, Connection>, order0: seq<string>, rows0: map<string, ConnRow>,
                   snapshot: seq<Connection>, timeout: int, now: nat)
    ensures ([], []) == Split(snapshot[..0], timeout, now)
    ensures entries0 == entries0 - Gone([])
    ensures order0 == Without(order0, Gone([]))
    ensures rows0 == DisconnectAll(rows0, [], now)
  {
    assert snapshot[..0] == [];
    assert Gone([]) == {};
    WithoutNothing(order0, {});
  }

  /**
   * One step of the check: test `snapshot[i]` against the cutoff and evict it,
   * or keep it, extending the report.
   */
  method CheckNext(pool: ConnectionPool, snapshot: seq<Connection>, i: nat, cutoff: int,
                   active: seq<string>, timedOut: seq<string>, timeout: int, now: nat,
                   ghost entries0: map<string, Connection>, ghost order0: seq<string>,
                   ghost rows0: map<string, ConnRow>)
    returns (active': seq<string>, timedOut': seq<string>)
    requires pool.Valid() && pool.db.ConnectionsValid()
    requires NoDuplicates(Ids(snapshot)) && i < |snapshot| && cutoff == now - timeout
    requires (active, timedOut) == Split(snapshot[..i], timeout, now)
    requires pool.entries == entries0 - Gone(timedOut)
    requires pool.order == Without(order0, Gone(timedOut))
    requires pool.db.connections == DisconnectAll(rows0, timedOut, now)
    requires forall j | i <= j < |snapshot| :: Ids(snapshot)[j] in pool.entries
    modifies pool`entries, pool`order, pool.db`connections
    ensures pool.Valid() && pool.db.ConnectionsValid()
    ensures (active', timedOut') == Split(snapshot[..i + 1], timeout, now)
    ensures pool.entries == entries0 - Gone(timedOut')
    ensures pool.order == Without(order0, Gone(timedOut'))
    ensures pool.db.connections == DisconnectAll(rows0, timedOut', now)
    ensures forall j | i + 1 <= j < |snapshot| :: Ids(snapshot)[j] in pool.entries
    ensures old(pool.Mirrors()) ==> pool.Mirrors()
  {
    var c := snapshot[i];
    SplitStep(snapshot, i, timeout, now);
    LaterDiffer(Ids(snapshot), i);
    assert Ids(snapshot)[i] == c.wsId;
    var lastHb := match c.lastHeartbeat case Some(t) => t case None => now;
    if lastHb < cutoff {
      var removed := pool.Remove(c.wsId, now);
      EvictStep(entries0, order0, rows0, timedOut, c.wsId, now);
      active', timedOut' := active, timedOut + [c.wsId];
    } else {
      active', timedOut' := active + [c.wsId], timedOut;
    }
  }

  /**
   * `heartbeat_check`: evict every pooled connection that has timed out,
   * marking its row disconnected, and report the survivors and the evicted
   * ids in snapshot order.
   */
  method HeartbeatCheck(pool: ConnectionPool, timeout: int, now: nat)
    returns (active: seq<string>, timedOut: seq<string>)
    requires pool.Valid() && pool.db.ConnectionsValid()
    modifies pool`entries, pool`order, pool.db`connections
    ensures pool.Valid() && pool.db.ConnectionsValid()
    ensures (active, timedOut) == Split(old(pool.GetAll()), timeout, now)
    ensures pool.entries == old(pool.entries) - Gone(timedOut)
    ensures pool.order == Without(old(pool.order), Gone(timedOut))
    ensures pool.db.connections == DisconnectAll(old(pool.db.connections), timedOut, now)
    ensures old(pool.Mirrors()) ==> pool.Mirrors()
  {
    var cutoff := now - timeout;
    active, timedOut := [], [];
    var snapshot := pool.GetAll();
    ghost var entries0, order0, rows0 := pool.entries, pool.order, pool.db.connections;
    ghost var mirrored := pool.Mirrors();
    CheckStart(entries0, order0, rows0, snapshot, timeout, now);
    for i := 0 to |snapshot|
      invariant pool.Valid() && pool.db.ConnectionsValid()
      invariant (active, timedOut) == Split(snapshot[..i], timeout, now)
      invariant pool.entries == entries0 - Gone(timedOut)
      invariant pool.order == Without(order0, Gone(timedOut))
      invariant pool.db.connections == DisconnectAll(rows0, timedOut, now)
      invariant forall j | i <= j < |snapshot| :: Ids(snapshot)[j] in pool.entries
      invariant mirrored ==> pool.Mirrors()
    {
      active, timedOut := CheckNext(pool, snapshot, i, cutoff, active, timedOut, timeout, now,
                                    entries0, order0, rows0);
    }
    assert snapshot[..|snapshot|] == snapshot;
  }
}
