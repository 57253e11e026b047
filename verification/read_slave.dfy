/** The read/write-splitting router of `moodle_read_slave_trait`: a database
    session that holds a mandatory primary (read-write) handle and an optional
    replica (read-only) handle, sends a SELECT to the replica unless one of
    its tables was written earlier in the session (or is excluded, or is a
    temporary table), and returns to the primary after every query.

    Everything the trait calls but does not define is a parameter: the
    outcome of the driver's own connect per address, the random replica
    index, the clock, the temporary-table registry and the driver's
    `loggingquery` flag. */
module ReadSlave {
  import opened Wrappers
  import opened SqlPatterns

  /** A connection handle. The drivers store a native connection object; the
      trait only compares and assigns handles, so any value type will do. */
  type Handle = string

  /** A database host, as given in `dbhost` or `dbhost_readonly`. */
  type Address = string

  /** The query type the caller passes to `query_start` (SQL_QUERY_*). */
  datatype QueryType = Select | Insert | Update | Structure | Aux

  /** A write-ledger entry: PHP `true` when there is no latency tolerance,
      otherwise the clock reading when the write started. */
  datatype WriteMark = Dirty | WrittenAt(time: int)

  /** What the underlying driver's `connect` does for one address. */
  datatype ConnOutcome = Connected(handle: Handle) | ConnFail

  /** The session fields of the trait, plus the driver's active handle and prefix. */
  datatype Session = Session(
    active: Option<Handle>,            // what db_handle() returns
    write: Option<Handle>,             // dbhwrite
    readonly: Option<Handle>,          // dbhreadonly
    readsSlave: nat,                   // readsslave
    latency: int,                      // slavelatency
    written: map<string, WriteMark>,   // written
    exclude: seq<string>,              // readexclude
    prefix: Prefix)                    // the driver's table prefix

  /** `dbhost_readonly`: unset, a non-array value, or a list of hosts. */
  datatype HostsOption = HostsUnset | HostScalar(host: Address) | HostList(hosts: seq<Address>)

  /** `db_readonly_exclude_tables`: unset, a non-array value, or a list of tables. */
  datatype ExcludeOption = ExcludeUnset | ExcludeScalar(value: string) | ExcludeList(tables: seq<string>)

  /** The driver options `connect` reads. */
  datatype Options = Options(readonlyHosts: HostsOption, latency: Option<int>, exclude: ExcludeOption)

  /** The exceptions that escape `connect`: `configuration_exception` for a
      non-array exclude option, `dml_connection_exception` from the primary. */
  datatype ConnectError = ConfigurationError | ConnectionError

  /** A connected session and how many times `error_log` was called. */
  datatype Connection = Connection(session: Session, errorLogs: nat)

  /** The field defaults before `connect`. */
  function Fresh(prefix: Prefix): Session {
    Session(None, None, None, 0, 0, map[], [], prefix)
  }

  /** `rand(0, $cnt - 1)` is only drawn for two or more hosts, and lies in range. */
  predicate PickInRange(hosts: HostsOption, pick: nat) {
    hosts.HostList? && |hosts.hosts| >= 2 ==> pick < |hosts.hosts|
  }

  /** The replica tried first (`$ro1`): none for an unset, scalar or empty
      option, the only element of a one-element list, the picked element otherwise. */
  function FirstChoice(hosts: HostsOption, pick: nat): (r: Option<Address>)
    requires PickInRange(hosts, pick)
    ensures r.Some? <==> hosts.HostList? && |hosts.hosts| > 0
    ensures r.Some? ==> r.value in hosts.hosts
    ensures hosts.HostList? && |hosts.hosts| >= 2 ==> r == Some(hosts.hosts[pick])
  {
    match hosts
    case HostList(hs) =>
      if |hs| == 0 then None
      else if |hs| == 1 then Some(hs[0])
      else Some(hs[pick])
    case _ => None
  }

  /** The fallback loop after the first choice failed: the hosts in list order,
      skipping those equal to the first choice, until one connects. */
  function Fallback(hosts: seq<Address>, first: Address, attempt: Address -> ConnOutcome): (r: Option<Handle>)
    ensures r.None? <==>
      forall k :: 0 <= k < |hosts| && hosts[k] != first ==> attempt(hosts[k]).ConnFail?
    ensures r.Some? ==> exists k :: 0 <= k < |hosts| && hosts[k] != first && attempt(hosts[k]) == Connected(r.value)
    decreases |hosts|
  {
    if |hosts| == 0 then None
    else
      var rest := Fallback(hosts[1..], first, attempt);
      assert forall k :: 1 <= k < |hosts| ==> hosts[k] == hosts[1..][k - 1];
      if hosts[0] == first then rest
      else match attempt(hosts[0])
        case Connected(h) => Some(h)
        case ConnFail => rest
  }

  /** The mandatory primary connection; its failure propagates. */
  function ConnectPrimary(s: Session, primary: Address, attempt: Address -> ConnOutcome, logs: nat): (r: Result<Connection, ConnectError>)
    ensures r.Ok? <==> attempt(primary).Connected?
    ensures r.Ok? ==> r.value.errorLogs == logs
    ensures r.Ok? ==>
      r.value.session == s.(write := Some(attempt(primary).handle), active := Some(attempt(primary).handle))
    ensures r.Err? ==> r.error == ConnectionError
  {
    match attempt(primary)
    case Connected(h) => Ok(Connection(s.(write := Some(h), active := Some(h)), logs))
    case ConnFail => Err(ConnectionError)
  }

  /** The first-choice replica connects and the exclude option is not an
      array: the configuration error is thrown before the primary is tried. */
  predicate ExcludeRejected(opts: Options, pick: nat, attempt: Address -> ConnOutcome)
    requires PickInRange(opts.readonlyHosts, pick)
  {
    && FirstChoice(opts.readonlyHosts, pick).Some?
    && attempt(FirstChoice(opts.readonlyHosts, pick).value).Connected?
    && opts.exclude.ExcludeScalar?
  }

  /** `connect`: try a replica (with fallback), then connect the primary. */
  function Connect(primary: Address, prefix: Prefix, opts: Options, pick: nat, attempt: Address -> ConnOutcome): (r: Result<Connection, ConnectError>)
    requires PickInRange(opts.readonlyHosts, pick)
    ensures r.Err? <==> attempt(primary).ConnFail? || ExcludeRejected(opts, pick, attempt)
    ensures ExcludeRejected(opts, pick, attempt) ==> r == Err(ConfigurationError)
    ensures r.Err? && !ExcludeRejected(opts, pick, attempt) ==> r.error == ConnectionError
    ensures r.Ok? ==>
      var s := r.value.session;
      && s.write == Some(attempt(primary).handle)
      && s.active == s.write
      && s.readsSlave == 0
      && s.written == map[]
      && s.prefix == prefix
    ensures r.Ok? ==>
      (r.value.errorLogs == 1 <==>
        FirstChoice(opts.readonlyHosts, pick).Some? && attempt(FirstChoice(opts.readonlyHosts, pick).value).ConnFail?)
    ensures r.Ok? ==> r.value.errorLogs <= 1
  {
    var s0 := Fresh(prefix);
    match FirstChoice(opts.readonlyHosts, pick)
    case None => ConnectPrimary(s0, primary, attempt, 0)
    case Some(ro1) =>
      match attempt(ro1)
      case Connected(h) =>
        var s1 := s0.(readonly := Some(h), latency := opts.latency.GetOr(s0.latency));
        (match opts.exclude
         case ExcludeUnset => ConnectPrimary(s1, primary, attempt, 0)
         case ExcludeList(ts) => ConnectPrimary(s1.(exclude := ts), primary, attempt, 0)
         case ExcludeScalar(_) => Err(ConfigurationError))
      case ConnFail =>
        var ro :=
          if opts.readonlyHosts.HostList? && |opts.readonlyHosts.hosts| >= 2
          then Fallback(opts.readonlyHosts.hosts, ro1, attempt)
          else None;
        ConnectPrimary(s0.(readonly := ro), primary, attempt, 1)
  }

  /** `perf_get_reads_slave`. */
  function ReadsSlave(s: Session): (n: nat)
    ensures n == s.readsSlave
  {
    s.readsSlave
  }

  /** A ledger entry as a number: PHP evaluates `$now - true` as `$now - 1`. */
  function LedgerTime(m: WriteMark): int {
    match m
    case WrittenAt(t) => t
    case Dirty => 1
  }

  /** One table of a SELECT may be read from the replica at time `now`: it is
      not excluded, not temporary, and either was not written in this session
      or (with a latency tolerance) its last write is at least `latency` old. */
  predicate TableSafe(s: Session, t: string, now: int, isTemp: string -> bool): (ok: bool)
    ensures s.latency == 0 ==> (ok <==> t !in s.exclude && !isTemp(t) && t !in s.written)
    ensures t in s.written && s.written[t].WrittenAt? && s.latency > 0 && ok ==>
      s.written[t].time + s.latency <= now
    ensures s.latency != 0 ==>
      (ok <==> t !in s.exclude && !isTemp(t) && (t in s.written ==> now - LedgerTime(s.written[t]) >= s.latency))
  {
    && t !in s.exclude
    && !isTemp(t)
    && (t in s.written ==> s.latency != 0 && now - LedgerTime(s.written[t]) >= s.latency)
  }

  /** The SELECT loop over the extracted tables, leaving the switch at the first
      unsafe table (`break 2`). */
  function ReplicaReadable(s: Session, tables: seq<string>, now: int, isTemp: string -> bool): (ok: bool)
    ensures ok <==> forall k :: 0 <= k < |tables| ==> TableSafe(s, tables[k], now, isTemp)
    decreases |tables|
  {
    if |tables| == 0 then true
    else
      var t := tables[0];
      assert forall k :: 1 <= k < |tables| ==> tables[k] == tables[1..][k - 1];
      if t in s.exclude then false
      else if isTemp(t) then false
      else if t in s.written then
        if s.latency != 0 then
          if now - LedgerTime(s.written[t]) < s.latency then false
          else ReplicaReadable(s, tables[1..], now, isTemp)
        else false
      else ReplicaReadable(s, tables[1..], now, isTemp)
  }

  /** The ledger entry a write records: `microtime` with a tolerance, else `true`. */
  function MarkFor(latency: int, now: int): (m: WriteMark)
    ensures m.Dirty? <==> latency == 0
    ensures m.WrittenAt? ==> LedgerTime(m) == now
  {
    if latency != 0 then WrittenAt(now) else Dirty
  }

  /** The write loop: every extracted table gets `mark`; other entries stay. */
  function Record(ledger: map<string, WriteMark>, tables: seq<string>, mark: WriteMark): (r: map<string, WriteMark>)
    ensures r.Keys == ledger.Keys + set k | 0 <= k < |tables| :: tables[k]
    ensures forall k :: 0 <= k < |tables| ==> r[tables[k]] == mark
    ensures forall t :: t in ledger && t !in tables ==> r[t] == ledger[t]
    decreases |tables|
  {
    if |tables| == 0 then ledger
    else
      var r := Record(ledger[tables[0] := mark], tables[1..], mark);
      assert forall k :: 1 <= k < |tables| ==> tables[k] == tables[1..][k - 1];
      assert (set k | 0 <= k < |tables| :: tables[k])
          == {tables[0]} + set k | 0 <= k < |tables[1..]| :: tables[1..][k];
      r
  }

  /** The routing decision of `_query_start`: no replica, a logging query or
      a `lock_db` query leave everything alone; a SELECT moves to the replica
      when all its tables are safe; INSERT, UPDATE and STRUCTURE record their
      tables in the ledger; any other type does nothing. */
  function QueryStart(s: Session, sql: string, kind: QueryType, now: int, logging: bool, isTemp: string -> bool): (r: Session)
    ensures r.write == s.write && r.readonly == s.readonly && r.latency == s.latency
    ensures r.exclude == s.exclude && r.prefix == s.prefix
    ensures r.active == s.active || r.active == s.readonly
    ensures r.readsSlave == s.readsSlave || (r.readsSlave == s.readsSlave + 1 && r.active == s.readonly)
    ensures s.written.Keys <= r.written.Keys
    ensures kind != Select ==> r.active == s.active && r.readsSlave == s.readsSlave
    ensures kind == Select ==> r.written == s.written
  {
    if s.readonly.None? || logging || MentionsLockDb(sql) then s
    else match kind
      case Select =>
        if ReplicaReadable(s, TableNames(s.prefix, sql), now, isTemp)
        then s.(readsSlave := s.readsSlave + 1, active := s.readonly)
        else s
      case Insert | Update | Structure =>
        s.(written := Record(s.written, TableNames(s.prefix, sql), MarkFor(s.latency, now)))
      case Aux => s
  }

  /** `_query_end`: back to the primary handle, if there is one. */
  function QueryEnd(s: Session): (r: Session)
    ensures s.write.Some? ==> r.active == s.write
    ensures s.write.None? ==> r == s
    ensures r.(active := s.active) == s
  {
    if s.write.Some? then s.(active := s.write) else s
  }
}
