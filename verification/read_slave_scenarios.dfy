/** The behaviour the read/write router's unit tests pin down, replayed on the
    model with the tests' fixture: the driver's connect just records the host
    as the handle, the prefix is `test_`, the replica list is
    `['test_ro1', 'test_ro2']`, and no table is temporary. */
module ReadSlaveScenarios {
  import opened Wrappers
  import opened Ascii
  import opened SqlPatterns
  import opened ReadSlave
  import opened ReadSlaveRouting

  /** The fixture's connect: every host connects and its name is the handle. */
  function FixtureAttempt(a: Address): ConnOutcome {
    Connected(a)
  }

  function NoTempTables(t: string): bool {
    false
  }

  const FixtureHosts: seq<Address> := ["test_ro1", "test_ro2"]

  const FixtureOptions: Options := Options(HostList(FixtureHosts), None, ExcludeUnset)

  /** `new_db()`, for either outcome of `rand(0, 1)`. */
  function NewDb(pick: nat): (s: Session)
    requires pick < 2
    ensures Resting(s) && LedgerConsistent(s)
    ensures s.write == Some("test_rw") && s.readonly == Some(FixtureHosts[pick])
    ensures s.latency == 0 && s.exclude == [] && ReadsSlave(s) == 0 && s.written == map[]
  {
    var r := Connect("test_rw", "test_", FixtureOptions, pick, FixtureAttempt);
    ConnectedSessionIsResting("test_rw", "test_", FixtureOptions, pick, FixtureAttempt);
    r.value.session
  }

  /** `get_records($table)`: a SELECT of `{table}`, the braces left in place
      because the fixture's `get_records_sql` does not rewrite them. */
  function GetRecords(table: string): Request {
    Request("SELECT * FROM {" + table + "}", Select, 0, false, NoTempTables)
  }

  /** `insert_record_raw` and `update_record_raw` pass the bare table name as SQL. */
  function InsertRecordRaw(table: string): Request {
    Request(table, Insert, 0, false, NoTempTables)
  }

  function UpdateRecordRaw(table: string): Request {
    Request(table, Update, 0, false, NoTempTables)
  }

  function GetRecordsSql(sql: string): Request {
    Request(sql, Select, 0, false, NoTempTables)
  }

  /** The fixture's two table names are identifiers the pattern captures whole. */
  lemma FixtureIdents()
    ensures IsIdentifier("table") && IsIdentifier("table2")
  {
  }

  /** `SELECT * FROM {test_<name>}` names exactly `<name>` and is no lock query. */
  lemma SelectOneTable(name: string)
    requires IsIdentifier(name) && 'k' !in name
    ensures TableNames("test_", GetRecords("test_" + name).sql) == [name]
    ensures !MentionsLockDb(GetRecords("test_" + name).sql)
  {
    var p: Prefix := "test_";
    assert '_' !in "SELECT * FROM {" && '_' !in "}";
    EnclosedTable(p, "SELECT * FROM {", name, "}", '_');
    SelectOneTableNoLock(name);
  }

  lemma SelectOneTableNoLock(name: string)
    requires 'k' !in name
    ensures !MentionsLockDb(GetRecords("test_" + name).sql)
  {
    assert 'k' !in "SELECT * FROM {" && 'k' !in "test_" && 'k' !in "}";
    assert 'k' !in "SELECT * FROM {" + ("test_" + name) + "}";
    NoLockDbWithout(GetRecords("test_" + name).sql, 'k');
  }

  /** The fixture's queries: which tables they name, and that none locks. */
  lemma FixtureSelects()
    ensures TableNames("test_", GetRecords("test_table").sql) == ["table"]
    ensures TableNames("test_", GetRecords("test_table2").sql) == ["table2"]
    ensures !MentionsLockDb(GetRecords("test_table").sql)
    ensures !MentionsLockDb(GetRecords("test_table2").sql)
  {
    FixtureIdents();
    SelectOneTable("table");
    SelectOneTable("table2");
    assert "test_" + "table" == "test_table";
    assert "test_" + "table2" == "test_table2";
  }

  /** The raw insert's SQL, the bare table name, names `table`. */
  lemma FixtureInsert()
    ensures TableNames("test_", InsertRecordRaw("test_table").sql) == ["table"]
  {
    FixtureIdents();
    TableNamesOfQualifiedName("test_", "table");
    assert "test_" + "table" == "test_table";
  }

  lemma FixtureInsertNoLock()
    ensures !MentionsLockDb(InsertRecordRaw("test_table").sql)
  {
    assert 'k' !in "test_table";
    NoLockDbWithout("test_table", 'k');
  }

  /** The join of `test_write_read_read`, `SELECT * FROM {test_table2} JOIN {test_table}`. */
  const JoinSql: string := "SELECT * FROM {" + "test_table2" + "} JOIN {" + "test_table" + "}"

  lemma FixtureJoin()
    ensures TableNames("test_", JoinSql) == ["table2", "table"]
  {
    var p: Prefix := "test_";
    var join := "SELECT * FROM {" + "test_table2" + "} JOIN {";
    FixtureJoinHead();
    FixtureIdents();
    assert p + "table" == "test_table";
    AppendTable(p, join, "table");
    AppendPlainText(p, join + "test_table", "}", '_');
  }

  /** The join's text up to its second table names the first. */
  lemma FixtureJoinHead()
    ensures TableNames("test_", "SELECT * FROM {" + "test_table2" + "} JOIN {") == ["table2"]
  {
    var p: Prefix := "test_";
    FixtureIdents();
    assert p + "table2" == "test_table2";
    assert '_' !in "SELECT * FROM {" && '_' !in "} JOIN {";
    EnclosedTable(p, "SELECT * FROM {", "table2", "} JOIN {", '_');
  }

  lemma FixtureJoinNoLock()
    ensures !MentionsLockDb(JoinSql)
  {
    assert 'k' !in "SELECT * FROM {" && 'k' !in "test_table2" && 'k' !in "} JOIN {";
    assert 'k' !in "test_table" && 'k' !in "}";
    NoLockDbWithout(JoinSql, 'k');
  }

  /** A SELECT whose tables are all safe runs on the replica and is counted. */
  lemma SafeSelect(s: Session, q: Request)
    requires Resting(s) && s.readonly.Some? && q.kind == Select && !q.logging && !MentionsLockDb(q.sql)
    requires ReplicaReadable(s, TableNames(s.prefix, q.sql), q.now, q.isTemp)
    ensures Execute(s, q) == (s.(readsSlave := s.readsSlave + 1), s.readonly)
  {
    var started := QueryStart(s, q.sql, q.kind, q.now, q.logging, q.isTemp);
    assert started == s.(readsSlave := s.readsSlave + 1, active := s.readonly);
    assert QueryEnd(started) == s.(readsSlave := s.readsSlave + 1);
  }

  /** A SELECT naming an unsafe table runs on the primary and is not counted. */
  lemma UnsafeSelect(s: Session, q: Request)
    requires Resting(s) && s.readonly.Some? && q.kind == Select && !q.logging && !MentionsLockDb(q.sql)
    requires !ReplicaReadable(s, TableNames(s.prefix, q.sql), q.now, q.isTemp)
    ensures Execute(s, q) == (s, s.write)
  {
  }

  /** A write runs on the primary and records its tables. */
  lemma WriteStep(s: Session, q: Request)
    requires Resting(s) && s.readonly.Some? && !q.logging && !MentionsLockDb(q.sql)
    requires q.kind == Insert || q.kind == Update || q.kind == Structure
    ensures Execute(s, q) ==
      (s.(written := Record(s.written, TableNames(s.prefix, q.sql), MarkFor(s.latency, q.now))), s.write)
  {
  }

  /** A fixture session: connected as `new_db()` left it, possibly after queries. */
  predicate FixtureSession(s: Session) {
    && Resting(s) && s.write == Some("test_rw") && s.readonly.Some?
    && s.prefix == "test_" && s.latency == 0 && s.exclude == []
  }

  lemma NewDbIsFixtureSession(pick: nat)
    requires pick < 2
    ensures FixtureSession(NewDb(pick))
    ensures ReadsSlave(NewDb(pick)) == 0 && NewDb(pick).written == map[]
  {
  }

  /** Reading a table this session has not written goes to the replica. */
  lemma ReadUnwritten(s: Session, table: string, name: string)
    requires FixtureSession(s) && name !in s.written
    requires TableNames("test_", GetRecords(table).sql) == [name] && !MentionsLockDb(GetRecords(table).sql)
    ensures Execute(s, GetRecords(table)) == (s.(readsSlave := s.readsSlave + 1), s.readonly)
  {
    assert TableSafe(s, [name][0], 0, NoTempTables);
    SafeSelect(s, GetRecords(table));
  }

  /** A query naming a table this session has written goes to the primary. */
  lemma ReadWritten(s: Session, q: Request, k: nat)
    requires FixtureSession(s) && q.kind == Select && !q.logging && !MentionsLockDb(q.sql)
    requires k < |TableNames("test_", q.sql)| && TableNames("test_", q.sql)[k] in s.written
    ensures Execute(s, q) == (s, s.write)
  {
    assert !TableSafe(s, TableNames("test_", q.sql)[k], q.now, q.isTemp);
    UnsafeSelect(s, q);
  }

  /** Inserting into (or updating) `test_table` marks `table` dirty on the primary. */
  lemma WriteTable(s: Session, q: Request)
    requires FixtureSession(s) && (q == InsertRecordRaw("test_table") || q == UpdateRecordRaw("test_table"))
    ensures Execute(s, q) == (s.(written := s.written["table" := Dirty]), s.write)
  {
    FixtureInsert();
    FixtureInsertNoLock();
    WriteStep(s, q);
    assert Record(s.written, ["table"], Dirty) == s.written["table" := Dirty];
  }

  /** `get_records('test_table')` before and after `table` is written. */
  lemma ReadTable(s: Session)
    requires FixtureSession(s)
    ensures "table" !in s.written ==>
      Execute(s, GetRecords("test_table")) == (s.(readsSlave := s.readsSlave + 1), s.readonly)
    ensures "table" in s.written ==> Execute(s, GetRecords("test_table")) == (s, s.write)
  {
    FixtureSelects();
    if "table" in s.written {
      ReadWritten(s, GetRecords("test_table"), 0);
    } else {
      ReadUnwritten(s, "test_table", "table");
    }
  }

  /** `get_records('test_table2')` while `table2` is unwritten. */
  lemma ReadTable2(s: Session)
    requires FixtureSession(s) && "table2" !in s.written
    ensures Execute(s, GetRecords("test_table2")) == (s.(readsSlave := s.readsSlave + 1), s.readonly)
  {
    FixtureSelects();
    ReadUnwritten(s, "test_table2", "table2");
  }

  /** The join naming `test_table` goes to the primary once `table` is written. */
  lemma JoinAfterWrite(s: Session)
    requires FixtureSession(s) && "table" in s.written
    ensures Execute(s, GetRecordsSql(JoinSql)) == (s, s.write)
  {
    FixtureJoin();
    FixtureJoinNoLock();
    ReadWritten(s, GetRecordsSql(JoinSql), 1);
  }

  /** `test_read_read_write_read`: two reads go to the replica, the write and
      the re-read of the written table go to the primary, the counter stays at 2. */
  lemma ReadReadWriteRead(pick: nat)
    requires pick < 2
    ensures var s0 := NewDb(pick);
      var (s1, h1) := Execute(s0, GetRecords("test_table"));
      var (s2, h2) := Execute(s1, GetRecords("test_table2"));
      var (s3, h3) := Execute(s2, InsertRecordRaw("test_table"));
      var (s4, h4) := Execute(s3, GetRecords("test_table"));
      && ReadsSlave(s0) == 0
      && h1 == Some(FixtureHosts[pick]) && ReadsSlave(s1) == 1
      && h2 == Some(FixtureHosts[pick]) && ReadsSlave(s2) == 2
      && h3 == Some("test_rw")
      && h4 == Some("test_rw") && ReadsSlave(s4) == 2
  {
    var s0 := NewDb(pick);
    NewDbIsFixtureSession(pick);
    ReadTable(s0);
    var s1 := s0.(readsSlave := 1);
    ReadTable2(s1);
    var s2 := s1.(readsSlave := 2);
    WriteTable(s2, InsertRecordRaw("test_table"));
    var s3 := s2.(written := map["table" := Dirty]);
    ReadTable(s3);
  }

  /** `test_read_write_write`: after one replica read, an insert and an update
      both run on the primary and the counter stays at 1. */
  lemma ReadWriteWrite(pick: nat)
    requires pick < 2
    ensures var s0 := NewDb(pick);
      var (s1, h1) := Execute(s0, GetRecords("test_table"));
      var (s2, h2) := Execute(s1, InsertRecordRaw("test_table"));
      var (s3, h3) := Execute(s2, UpdateRecordRaw("test_table"));
      && h1 == Some(FixtureHosts[pick]) && ReadsSlave(s1) == 1
      && h2 == Some("test_rw") && h3 == Some("test_rw")
      && ReadsSlave(s3) == 1
  {
    var s0 := NewDb(pick);
    NewDbIsFixtureSession(pick);
    ReadTable(s0);
    var s1 := s0.(readsSlave := 1);
    WriteTable(s1, InsertRecordRaw("test_table"));
    var s2 := s1.(written := map["table" := Dirty]);
    WriteTable(s2, UpdateRecordRaw("test_table"));
  }

  /** `test_write_read_read`: after a write, reading that table stays on the
      primary, reading another table uses the replica, and a join that
      mentions the written table goes back to the primary. */
  lemma WriteReadRead(pick: nat)
    requires pick < 2
    ensures var s0 := NewDb(pick);
      var (s1, h1) := Execute(s0, InsertRecordRaw("test_table"));
      var (s2, h2) := Execute(s1, GetRecords("test_table"));
      var (s3, h3) := Execute(s2, GetRecords("test_table2"));
      var (s4, h4) := Execute(s3, GetRecordsSql(JoinSql));
      && h1 == Some("test_rw") && ReadsSlave(s1) == 0
      && h2 == Some("test_rw") && ReadsSlave(s2) == 0
      && h3 == Some(FixtureHosts[pick]) && ReadsSlave(s3) == 1
      && h4 == Some("test_rw") && ReadsSlave(s4) == 1
  {
    var s0 := NewDb(pick);
    NewDbIsFixtureSession(pick);
    WriteTable(s0, InsertRecordRaw("test_table"));
    var s1 := s0.(written := map["table" := Dirty]);
    ReadTable(s1);
    ReadTable2(s1);
    var s3 := s1.(readsSlave := 1);
    JoinAfterWrite(s3);
  }
}
