/**
 * Queries: the read side. `get_active_connections` filters the pool,
 * `get_message_history` reads the message table newest first under a limit,
 * and `connection_stats` summarises the pool and the tables.
 */
module Queries {
  import opened Wrappers
  import opened Store
  import opened Registry
  import opened Delivery

  /** Filtering with a test every element passes returns the list unchanged. */
  lemma {:induction false} SelectAll(cs: seq<Connection>, f: Connection -> bool)
    requires forall c | c in cs :: f(c)
    ensures Select(cs, f) == cs
  {
    if cs != [] {
      SelectAll(cs[1..], f);
      assert [cs[0]] + cs[1..] == cs;
    }
  }

  /** `c.status == "active"`. */
  predicate IsActive(c: Connection) {
    c.status == Active
  }

  /** `get_active_connections`: the pooled connections whose status is active, in pool order. */
  function GetActiveConnections(pool: ConnectionPool): (r: seq<Connection>)
    reads pool
    requires pool.Valid()
    ensures forall c :: c in r <==> c in pool.GetAll() && c.status == Active
  {
    Select(pool.GetAll(), IsActive)
  }

  /** While the pool mirrors the table, every pooled connection is active: the filter drops nothing. */
  lemma ActiveConnectionsAreAll(pool: ConnectionPool)
    requires pool.Valid() && pool.Mirrors()
    ensures GetActiveConnections(pool) == pool.GetAll()
  {
    MirroredEntriesActive(pool);
    SelectAll(pool.GetAll(), IsActive);
  }

  // ---------------------------------------------------------------------------
  // Message history
  // ---------------------------------------------------------------------------

  /** `recipient_id = ws_id OR sender_id = ws_id`. */
  predicate Involves(r: MsgRow, wsId: string) {
    r.recipientId == Some(wsId) || r.senderId == Some(wsId)
  }

  /** The rows of `rows` that involve `wsId`, in table order. */
  function Involving(rows: seq<MsgRow>, wsId: string): (r: seq<MsgRow>)
    ensures forall x :: x in r <==> x in rows && Involves(x, wsId)
    ensures forall x :: multiset(r)[x] == if Involves(x, wsId) then multiset(rows)[x] else 0
  {
    if rows == [] then []
    else
      assert rows == [rows[0]] + rows[1..];
      if Involves(rows[0], wsId) then [rows[0]] + Involving(rows[1..], wsId) else Involving(rows[1..], wsId)
  }

  /** `ORDER BY sent_at DESC`: no row is newer than one before it. */
  ghost predicate NewestFirst(s: seq<MsgRow>) {
    forall i, j | 0 <= i < j < |s| :: s[i].sentAt >= s[j].sentAt
  }

  /** A row heads a newest-first list exactly when it is no older than any row of the list it heads. */
  lemma NewestFirstCons(a: MsgRow, t: seq<MsgRow>)
    ensures NewestFirst([a] + t) <==> (forall y | y in t :: a.sentAt >= y.sentAt) && NewestFirst(t)
  {
    if (forall y | y in t :: a.sentAt >= y.sentAt) && NewestFirst(t) {
      forall i, j | 0 <= i < j < |[a] + t| ensures ([a] + t)[i].sentAt >= ([a] + t)[j].sentAt {
        assert ([a] + t)[j] == t[j - 1];
        if i > 0 {
          assert ([a] + t)[i] == t[i - 1];
        }
      }
    }
    if NewestFirst([a] + t) {
      forall y | y in t ensures a.sentAt >= y.sentAt {
        var k :| 0 <= k < |t| && t[k] == y;
        assert ([a] + t)[0] == a && ([a] + t)[k + 1] == y;
      }
      forall i, j | 0 <= i < j < |t| ensures t[i].sentAt >= t[j].sentAt {
        assert ([a] + t)[i + 1] == t[i] && ([a] + t)[j + 1] == t[j];
      }
    }
  }

  /** Place `x` in a newest-first list, ahead of the first strictly older row. */
  function Insert(x: MsgRow, s: seq<MsgRow>): (r: seq<MsgRow>)
    ensures multiset(r) == multiset(s) + multiset{x}
  {
    if s == [] || x.sentAt >= s[0].sentAt then [x] + s
    else
      assert s == [s[0]] + s[1..];
      [s[0]] + Insert(x, s[1..])
  }

  /** Inserting keeps a list newest first. */
  lemma {:induction false} InsertNewestFirst(x: MsgRow, s: seq<MsgRow>)
    requires NewestFirst(s)
    ensures NewestFirst(Insert(x, s))
  {
    if s != [] {
      assert s == [s[0]] + s[1..];
      NewestFirstCons(s[0], s[1..]);
      if x.sentAt >= s[0].sentAt {
        NewestFirstCons(x, s);
      } else {
        var rest := Insert(x, s[1..]);
        InsertNewestFirst(x, s[1..]);
        forall y | y in rest ensures s[0].sentAt >= y.sentAt {
          assert y in multiset(rest);
        }
        NewestFirstCons(s[0], rest);
      }
    }
  }

  /** Sort newest first; rows with equal `sent_at` keep no particular order. */
  function SortNewestFirst(s: seq<MsgRow>): (r: seq<MsgRow>)
    ensures multiset(r) == multiset(s)
    ensures NewestFirst(r)
  {
    if s == [] then []
    else
      assert s == [s[0]] + s[1..];
      InsertNewestFirst(s[0], SortNewestFirst(s[1..]));
      Insert(s[0], SortNewestFirst(s[1..]))
  }

  /** `ORDER BY sent_at DESC LIMIT limit` over `rows`; a negative limit places no bound, as in SQLite. */
  function Newest(rows: seq<MsgRow>, limit: int): (r: seq<MsgRow>)
    ensures NewestFirst(r)
    ensures limit >= 0 ==> |r| == if limit < |rows| then limit else |rows|
    ensures multiset(r) <= multiset(rows)
    ensures limit < 0 || limit >= |rows| ==> multiset(r) == multiset(rows)
  {
    var sorted := SortNewestFirst(rows);
    assert |sorted| == |rows| by {
      assert |multiset(sorted)| == |multiset(rows)|;
    }
    if limit < 0 || limit >= |sorted| then sorted
    else
      assert sorted == sorted[..limit] + sorted[limit..];
      assert NewestFirst(sorted[..limit]) by {
        forall i, j | 0 <= i < j < limit ensures sorted[..limit][i].sentAt >= sorted[..limit][j].sentAt {
          assert sorted[..limit][i] == sorted[i] && sorted[..limit][j] == sorted[j];
        }
      }
      sorted[..limit]
  }

  /** In a newest-first list, every row after position `k` is no newer than any row before it. */
  lemma PrefixIsNewest(s: seq<MsgRow>, k: nat)
    requires NewestFirst(s) && k <= |s|
    ensures multiset(s) - multiset(s[..k]) == multiset(s[k..])
    ensures forall x, y | x in s[k..] && y in s[..k] :: x.sentAt <= y.sentAt
  {
    assert s == s[..k] + s[k..];
    forall x, y | x in s[k..] && y in s[..k] ensures x.sentAt <= y.sentAt {
      var i :| 0 <= i < |s[k..]| && s[k..][i] == x;
      var j :| 0 <= j < k && s[..k][j] == y;
      assert s[k + i] == x && s[j] == y;
    }
  }

  /** None of the rows a limit leaves out is newer than any row kept. */
  lemma NewestKeepsNewest(rows: seq<MsgRow>, limit: int)
    ensures forall x, y | x in multiset(rows) - multiset(Newest(rows, limit)) && y in Newest(rows, limit) ::
      x.sentAt <= y.sentAt
  {
    var sorted := SortNewestFirst(rows);
    var r := Newest(rows, limit);
    if limit < 0 || limit >= |sorted| {
      assert multiset(rows) - multiset(r) == multiset{};
    } else {
      PrefixIsNewest(sorted, limit);
      assert r == sorted[..limit];
      forall x | x in multiset(rows) - multiset(r) ensures x in sorted[limit..] {
        assert x in multiset(sorted[limit..]);
      }
    }
  }

  /** The rows `get_message_history` considers: all of them, or those involving a non-empty `ws_id`. */
  function Candidates(messages: seq<MsgRow>, wsId: Option<string>): (r: seq<MsgRow>)
    ensures multiset(r) <= multiset(messages)
    ensures wsId.Some? && wsId.value != "" ==> forall x | x in r :: Involves(x, wsId.value)
    ensures wsId.Some? && wsId.value != "" ==> forall x | x in messages && Involves(x, wsId.value) :: x in r
    ensures wsId.None? || wsId.value == "" ==> r == messages
  {
    if wsId.Some? && wsId.value != "" then Involving(messages, wsId.value) else messages
  }

  /**
   * `get_message_history`: the rows to or from a non-empty `ws_id` (or all
   * rows), newest first, at most `limit` of them unless `limit` is negative.
   */
  function GetMessageHistory(db: Database, wsId: Option<string>, limit: int): (r: seq<MsgRow>)
    reads db`messages
    ensures NewestFirst(r)
    ensures limit >= 0 ==> |r| == if limit < |Candidates(db.messages, wsId)| then limit else |Candidates(db.messages, wsId)|
    ensures multiset(r) <= multiset(db.messages)
    ensures wsId.Some? && wsId.value != "" ==> forall x | x in r :: Involves(x, wsId.value)
    ensures limit < 0 || limit >= |Candidates(db.messages, wsId)| ==>
      forall x | x in db.messages && (wsId.None? || wsId.value == "" || Involves(x, wsId.value)) :: x in r
  {
    var rows := Candidates(db.messages, wsId);
    var r := Newest(rows, limit);
    assert forall x | x in r :: x in rows by {
      forall x | x in r ensures x in rows {
        assert x in multiset(r);
      }
    }
    assert limit < 0 || limit >= |rows| ==> forall x | x in rows :: x in r by {
      if limit < 0 || limit >= |rows| {
        forall x | x in rows ensures x in r {
          assert x in multiset(rows);
        }
      }
    }
    r
  }

  /** Among the candidate rows, none left out by the limit is newer than any row returned. */
  lemma HistoryKeepsNewest(db: Database, wsId: Option<string>, limit: int)
    ensures forall x, y | x in multiset(Candidates(db.messages, wsId)) - multiset(GetMessageHistory(db, wsId, limit))
                       && y in GetMessageHistory(db, wsId, limit) ::
      x.sentAt <= y.sentAt
  {
    NewestKeepsNewest(Candidates(db.messages, wsId), limit);
  }

  // ---------------------------------------------------------------------------
  // Connection statistics
  // ---------------------------------------------------------------------------

  /** The dictionary `connection_stats` returns. */
  datatype Stats = Stats(
    activeConnections: nat,
    totalEverConnected: nat,
    totalMessages: nat,
    agents: map<string, nat>)

  /** The agent of each connection, in order. */
  function AgentsOf(cs: seq<Connection>): seq<string> {
    seq(|cs|, i requires 0 <= i < |cs| => cs[i].agent)
  }

  /** `agents[c.agent] = agents.get(c.agent, 0) + 1` over `cs`, in order. */
  function Histogram(cs: seq<Connection>): (r: map<string, nat>)
    ensures forall a | a in r :: 1 <= r[a] <= |cs|
  {
    if cs == [] then map[]
    else
      var h := Histogram(cs[..|cs| - 1]);
      var a := cs[|cs| - 1].agent;
      h[a := (if a in h then h[a] else 0) + 1]
  }

  /** Counting one more connection. */
  lemma HistogramStep(cs: seq<Connection>, i: nat)
    requires i < |cs|
    ensures var h := Histogram(cs[..i]);
      Histogram(cs[..i + 1]) == h[cs[i].agent := (if cs[i].agent in h then h[cs[i].agent] else 0) + 1]
  {
    assert cs[..i + 1][..i] == cs[..i];
  }

  /** The histogram counts each agent as often as it occurs, and names no other. */
  lemma {:induction false} HistogramCounts(cs: seq<Connection>)
    ensures forall a :: a in Histogram(cs) <==> a in AgentsOf(cs)
    ensures forall a | a in Histogram(cs) :: Histogram(cs)[a] == multiset(AgentsOf(cs))[a]
  {
    if cs != [] {
      var init := cs[..|cs| - 1];
      HistogramCounts(init);
      assert AgentsOf(cs) == AgentsOf(init) + [cs[|cs| - 1].agent];
    }
  }

  /** The sum of a map's values. */
  ghost function Total(m: map<string, nat>): nat
    decreases |m|
  {
    if m == map[] then 0
    else
      var k :| k in m;
      assert |m - {k}| < |m| by {
        assert (m - {k}).Keys == m.Keys - {k};
      }
      m[k] + Total(m - {k})
  }

  /** The sum does not depend on which key is taken out first. */
  lemma TotalRemove(m: map<string, nat>, k: string)
    requires k in m
    ensures Total(m) == m[k] + Total(m - {k})
    decreases |m|
  {
    var k' :| k' in m && Total(m) == m[k'] + Total(m - {k'});
    if k' != k {
      assert (m - {k'}).Keys == m.Keys - {k'} && (m - {k}).Keys == m.Keys - {k};
      TotalRemove(m - {k'}, k);
      TotalRemove(m - {k}, k');
      assert m - {k'} - {k} == m - {k} - {k'};
    }
  }

  /** The agent counts add up to the number of connections counted. */
  lemma {:induction false} HistogramTotal(cs: seq<Connection>)
    ensures Total(Histogram(cs)) == |cs|
  {
    if cs != [] {
      var init := cs[..|cs| - 1];
      var h := Histogram(init);
      var a := cs[|cs| - 1].agent;
      var h' := Histogram(cs);
      HistogramTotal(init);
      TotalRemove(h', a);
      assert h' - {a} == h - {a};
      if a in h {
        TotalRemove(h, a);
      } else {
        assert h - {a} == h;
      }
    }
  }

  /** The loop of `connection_stats` that tallies connections per agent. */
  method CountAgents(cs: seq<Connection>) returns (agents: map<string, nat>)
    ensures agents == Histogram(cs)
    ensures Total(agents) == |cs|
  {
    agents := map[];
    for i := 0 to |cs|
      invariant agents == Histogram(cs[..i])
    {
      HistogramStep(cs, i);
      var a := cs[i].agent;
      agents := agents[a := (if a in agents then agents[a] else 0) + 1];
    }
    assert cs[..|cs|] == cs;
    HistogramTotal(cs);
  }

  /**
   * `connection_stats`: the pool's size, the number of connection rows ever
   * written (one per id), the number of message rows, and the agent histogram
   * of the pool, whose counts add up to the pool's size.
   */
  method ConnectionStats(pool: ConnectionPool, db: Database) returns (s: Stats)
    requires pool.Valid()
    ensures s.activeConnections == pool.Count() == |pool.GetAll()|
    ensures s.totalEverConnected == |db.connections| && s.totalMessages == |db.messages|
    ensures s.agents == Histogram(pool.GetAll())
    ensures Total(s.agents) == s.activeConnections
  {
    var totalConn := |db.connections|;
    var totalMsg := |db.messages|;
    var active := pool.Count();
    var agents := CountAgents(pool.GetAll());
    s := Stats(active, totalConn, totalMsg, agents);
  }
}
