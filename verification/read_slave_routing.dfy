/** What one query, and a sequence of queries, does to the routing state. */
module ReadSlaveRouting {
  import opened Wrappers
  import opened SqlPatterns
  import opened ReadSlave

  /** No replica, a logging query, or `lock_db` in the text: the query runs on
      whatever handle is active and nothing is counted or recorded. */
  lemma BypassLeavesSessionAlone(s: Session, sql: string, kind: QueryType, now: int, logging: bool, isTemp: string -> bool)
    requires s.readonly.None? || logging || MentionsLockDb(sql)
    ensures QueryStart(s, sql, kind, now, logging, isTemp) == s
  {
  }

  /** A SELECT moves to the replica, and is counted once, exactly when every
      extracted table is neither excluded nor temporary and either has no
      ledger entry or (with a tolerance) was written at least `latency` ago;
      otherwise nothing changes. A SELECT naming no table always moves. */
  lemma SelectRouting(s: Session, sql: string, now: int, isTemp: string -> bool)
    requires s.readonly.Some? && !MentionsLockDb(sql)
    ensures var r := QueryStart(s, sql, Select, now, false, isTemp);
      var tables := TableNames(s.prefix, sql);
      && (r.readsSlave == s.readsSlave + 1 <==>
            forall k :: 0 <= k < |tables| ==>
              && tables[k] !in s.exclude
              && !isTemp(tables[k])
              && (tables[k] in s.written ==>
                    s.latency != 0 && now - LedgerTime(s.written[tables[k]]) >= s.latency))
      && (r.readsSlave == s.readsSlave + 1 ==> r == s.(readsSlave := s.readsSlave + 1, active := s.readonly))
      && (r.readsSlave != s.readsSlave + 1 ==> r == s)
      && (|tables| == 0 ==> r.active == s.readonly)
  {
  }

  /** INSERT, UPDATE and STRUCTURE queries record each extracted table (the
      clock reading with a tolerance, `Dirty` without), keep every other ledger
      entry, and change neither the handle nor the counter. */
  lemma WriteRecording(s: Session, sql: string, kind: QueryType, now: int, isTemp: string -> bool)
    requires kind == Insert || kind == Update || kind == Structure
    requires s.readonly.Some? && !MentionsLockDb(sql)
    ensures var r := QueryStart(s, sql, kind, now, false, isTemp);
      var tables := TableNames(s.prefix, sql);
      && r.active == s.active && r.readsSlave == s.readsSlave
      && r.written.Keys == s.written.Keys + (set k | 0 <= k < |tables| :: tables[k])
      && (forall k :: 0 <= k < |tables| ==>
            r.written[tables[k]] == (if s.latency != 0 then WrittenAt(now) else Dirty))
      && (forall t :: t in s.written && t !in tables ==> r.written[t] == s.written[t])
  {
  }

  /** Any other query type falls through the switch. */
  lemma OtherTypesChangeNothing(s: Session, sql: string, now: int, logging: bool, isTemp: string -> bool)
    ensures QueryStart(s, sql, Aux, now, logging, isTemp) == s
  {
  }

  /** One query as the driver runs it: `query_start`, execution on the active
      handle, `query_end`. */
  datatype Request = Request(sql: string, kind: QueryType, now: int, logging: bool, isTemp: string -> bool)

  /** The session after the query, and the handle the query ran on. */
  function Execute(s: Session, q: Request): (Session, Option<Handle>) {
    var started := QueryStart(s, q.sql, q.kind, q.now, q.logging, q.isTemp);
    (QueryEnd(started), started.active)
  }

  /** Queries in order: the final session and the handle of each query. */
  function Run(s: Session, qs: seq<Request>): (Session, seq<Option<Handle>>)
    decreases |qs|
  {
    if |qs| == 0 then (s, [])
    else
      var (s1, h) := Execute(s, qs[0]);
      var (s2, hs) := Run(s1, qs[1..]);
      (s2, [h] + hs)
  }

  /** Between queries the primary is connected and active. */
  predicate Resting(s: Session) {
    s.write.Some? && s.active == s.write
  }

  /** Ledger entries agree with the tolerance: `Dirty` exactly when there is none. */
  predicate LedgerConsistent(s: Session) {
    forall t :: t in s.written ==> (s.written[t].Dirty? <==> s.latency == 0)
  }

  /** A successful `connect` leaves a resting session with an empty ledger. */
  lemma ConnectedSessionIsResting(primary: Address, prefix: Prefix, opts: Options, pick: nat, attempt: Address -> ConnOutcome)
    requires PickInRange(opts.readonlyHosts, pick)
    ensures var r := Connect(primary, prefix, opts, pick, attempt);
      r.Ok? ==> Resting(r.value.session) && LedgerConsistent(r.value.session) && ReadsSlave(r.value.session) == 0
  {
  }

  /** A query from a resting session runs on the primary or the replica, is
      counted exactly when it runs on a distinct replica, and leaves a resting
      session whose configuration is unchanged and whose ledger only grew. */
  lemma ExecuteKeepsResting(s: Session, q: Request)
    requires Resting(s) && LedgerConsistent(s)
    ensures var (r, h) := Execute(s, q);
      && Resting(r) && LedgerConsistent(r)
      && (h == s.write || h == s.readonly)
      && r.write == s.write && r.readonly == s.readonly && r.latency == s.latency
      && r.exclude == s.exclude && r.prefix == s.prefix
      && s.written.Keys <= r.written.Keys
      && (s.readonly != s.write ==>
            (r.readsSlave == s.readsSlave + 1 <==> h == s.readonly)
            && (h != s.readonly ==> r.readsSlave == s.readsSlave))
      && (r.readsSlave == s.readsSlave || r.readsSlave == s.readsSlave + 1)
  {
    var started := QueryStart(s, q.sql, q.kind, q.now, q.logging, q.isTemp);
    forall t | t in started.written
      ensures started.written[t].Dirty? <==> started.latency == 0
    {
      if t !in s.written {
        var tables := TableNames(s.prefix, q.sql);
        assert t in tables;
      }
    }
  }

  /** How many entries of `hs` are `h`. */
  function CountOf(hs: seq<Option<Handle>>, h: Option<Handle>): nat
    decreases |hs|
  {
    if |hs| == 0 then 0 else (if hs[0] == h then 1 else 0) + CountOf(hs[1..], h)
  }

  /** Over any run from a resting session, `perf_get_reads_slave` grows by
      exactly the number of queries that ran on a distinct replica, and never
      decreases; every query ran on the primary or the replica. */
  lemma {:induction false} RunCountsReplicaReads(s: Session, qs: seq<Request>)
    requires Resting(s) && LedgerConsistent(s) && s.readonly != s.write
    ensures var (r, hs) := Run(s, qs);
      && |hs| == |qs|
      && ReadsSlave(r) == ReadsSlave(s) + CountOf(hs, s.readonly)
      && ReadsSlave(s) <= ReadsSlave(r) <= ReadsSlave(s) + |qs|
      && (forall k :: 0 <= k < |hs| ==> hs[k] == s.write || hs[k] == s.readonly)
      && Resting(r) && LedgerConsistent(r)
    decreases |qs|
  {
    if |qs| > 0 {
      var (s1, h) := Execute(s, qs[0]);
      ExecuteKeepsResting(s, qs[0]);
      RunCountsReplicaReads(s1, qs[1..]);
      var (r, hs) := Run(s1, qs[1..]);
      assert Run(s, qs) == (r, [h] + hs);
      assert ([h] + hs)[1..] == hs;
      assert CountOf(hs, s.readonly) <= |hs| by {
        CountBound(hs, s.readonly);
      }
    }
  }

  /** A count is bounded by the length. */
  lemma {:induction false} CountBound(hs: seq<Option<Handle>>, h: Option<Handle>)
    ensures CountOf(hs, h) <= |hs|
    decreases |hs|
  {
    if |hs| > 0 {
      CountBound(hs[1..], h);
    }
  }

  /** The ledger only grows and the configuration stays put over any run. */
  lemma {:induction false} RunKeepsLedgerKeys(s: Session, qs: seq<Request>)
    requires Resting(s) && LedgerConsistent(s)
    ensures var (r, _) := Run(s, qs);
      && s.written.Keys <= r.written.Keys
      && r.latency == s.latency && r.write == s.write && r.readonly == s.readonly
      && r.exclude == s.exclude && r.prefix == s.prefix
      && Resting(r) && LedgerConsistent(r)
    decreases |qs|
  {
    if |qs| > 0 {
      var (s1, _) := Execute(s, qs[0]);
      ExecuteKeepsResting(s, qs[0]);
      RunKeepsLedgerKeys(s1, qs[1..]);
    }
  }

  /** Without a tolerance a written table stays on the primary for the rest of
      the session: after any further queries, a SELECT that names it runs on
      the primary and is not counted. */
  lemma StrictWriteIsPermanent(s: Session, t: string, qs: seq<Request>, q: Request)
    requires Resting(s) && LedgerConsistent(s) && s.latency == 0 && t in s.written
    requires q.kind == Select && t in TableNames(s.prefix, q.sql)
    ensures var (mid, _) := Run(s, qs);
      var (r, h) := Execute(mid, q);
      h == s.write && ReadsSlave(r) == ReadsSlave(mid)
  {
    RunKeepsLedgerKeys(s, qs);
    var (mid, _) := Run(s, qs);
    var tables := TableNames(mid.prefix, q.sql);
    var k :| 0 <= k < |tables| && tables[k] == t;
    assert !TableSafe(mid, tables[k], q.now, q.isTemp);
  }

  /** A write to other tables does not change whether table `t` is safe to read
      from the replica. */
  lemma UnrelatedWriteKeepsRouting(s: Session, w: Request, t: string, now: int, isTemp: string -> bool)
    requires Resting(s) && LedgerConsistent(s)
    requires t !in TableNames(s.prefix, w.sql)
    ensures TableSafe(Execute(s, w).0, t, now, isTemp) == TableSafe(s, t, now, isTemp)
  {
  }

  /** With a tolerance, a SELECT of a table written at time `w` runs on the
      replica exactly when at least `latency` has elapsed since; an elapsed time
      equal to the tolerance already counts as safe. */
  lemma TolerantReadAfterWrite(s: Session, t: string, sql: string, w: int, now: int, isTemp: string -> bool)
    requires Resting(s) && LedgerConsistent(s) && s.latency != 0 && s.readonly.Some? && s.readonly != s.write
    requires t !in s.exclude && !isTemp(t) && TableNames(s.prefix, sql) == [t] && !MentionsLockDb(sql)
    ensures var (s1, _) := Execute(s, Request(sql, Insert, w, false, isTemp));
      var (s2, h) := Execute(s1, Request(sql, Select, now, false, isTemp));
      (h == s.readonly <==> now - w >= s.latency)
  {
    var (s1, _) := Execute(s, Request(sql, Insert, w, false, isTemp));
    assert s1.written[t] == WrittenAt(w);
    var tables := TableNames(s1.prefix, sql);
    assert tables[0] == t;
    if now - w >= s.latency {
      assert TableSafe(s1, tables[0], now, isTemp);
    } else {
      assert !TableSafe(s1, tables[0], now, isTemp);
    }
  }
}
