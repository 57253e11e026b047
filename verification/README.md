# Read/write splitting and the Redis server-list check, in Dafny

This project models two pieces of Moodle.

1. The read/write-splitting layer of the database driver (`moodle_read_slave_trait`). At connect time it:
   - picks a read-only replica from a list of hosts (a random first choice, then the others in list order);
   - takes a latency tolerance and a list of tables that are never read from the replica;
   - then connects the primary.

   Before each query it extracts the prefixed table names from the SQL and decides where the query runs:
   - a SELECT goes to the replica when every table it names is safe;
   - INSERT, UPDATE and STRUCTURE queries record their tables in a per-session write ledger;
   - after every query the active handle goes back to the primary.

   A counter (`perf_get_reads_slave`) reports how many queries the replica served.

2. The server-list validation of the Redis cache store's add-instance form:
   - a cluster-mode request needs cluster support;
   - single-server mode allows one line only;
   - in cluster mode every non-blank line must be `address:port`.

The model is functional. A session is an immutable record, and `connect`, `_query_start` and `_query_end` are pure step functions over it. The validator is a pure function from (cluster availability, form data, incoming errors) to errors.

Modules:

- `Wrappers`: `Option` and `Result`.
- `Ascii`: character classes. Word characters are `[A-Za-z0-9_]`; trimmable characters are the six that PHP's `trim` removes by default.
- `SqlPatterns`: the two regular expressions of the trait.
  - `table_names` is `\b<prefix>([a-z][A-Za-z0-9_]*)`. The reference definition `TableNames` lists every match position. `ScanTableNames` is the left-to-right scanner that resumes after each match, as `preg_match_all` does; it is proved to compute the same list.
  - `lock_db\b` is the predicate `MentionsLockDb`.
  - Seam lemmas compute the extraction piece by piece for concatenated queries.
- `ReadSlave`: the session state and `connect`, `_query_start`, `_query_end`, `perf_get_reads_slave`.
- `ReadSlaveConnect`: replica selection and option handling at connect time.
- `ReadSlaveRouting`: routing lemmas for one query and for runs of queries. A query is `query_start`, then execution on the active handle, then `query_end`.
- `ReadSlaveScenarios`: the driver's unit-test fixture (a fake `connect` whose handle is the host name) and the three routing tests.
- `TableNamesExample`: the nested-subquery extraction test.
- `PhpStrings`: `explode`, `implode`, `trim` and `empty` on strings.
- `RedisForm`: `configuration_validation` and `configuration_validation_serverscluster`.
- `RedisFormScenarios`: the form's unit tests.

Modelling choices:

- Calls into code that is not shown become parameters:
  - the parent driver's `connect` is an oracle `attempt: Address -> ConnOutcome`;
  - `rand` is the chosen index `pick`;
  - `microtime(true)` is an integer `now`, one value per query;
  - `temptables->is_temptable` is a predicate `isTemp`;
  - `$this->loggingquery` is a flag;
  - `get_string` is a `render: Message -> string` function applied to opaque messages.
- The replica latency is an integer that is tested for truthiness (`!= 0`), as PHP does.
- A write ledger entry is `WrittenAt(now)` when there is a tolerance, and `Dirty` (PHP's `true`) otherwise. In the staleness test, `now - true` evaluates as `now - 1`.

## Model

| member | source | states |
|---|---|---|
| SqlPatterns.ScanTableNames | lib/dml/moodle_read_slave_trait.php:199-202 | The scanner (try each position; after a match, resume at the end of the captured name) returns exactly the reference list of every match, and every entry is an identifier `[a-z][A-Za-z0-9_]*` |
| SqlPatterns.TableNames | lib/dml/moodle_read_slave_trait.php:199-202 | The reference meaning of `table_names`: one capture per match position, in text order, repeats kept. There are at most as many names as characters |
| SqlPatterns.MatchesAreIdentifiers | lib/dml/moodle_read_slave_trait.php:200 | Every extracted name starts with a lowercase ASCII letter and continues with word characters only |
| SqlPatterns.NoMatchInsideRun | lib/dml/moodle_read_slave_trait.php:200 | No match starts strictly inside the word run that follows a match (`\b` fails there), so resuming after a match loses nothing |
| SqlPatterns.ResumeAfterMatch | lib/dml/moodle_read_slave_trait.php:200 | The matches from a match position are that match followed by the matches from the end of its captured name |
| SqlPatterns.TableNamesConcat | lib/dml/moodle_read_slave_trait.php:200 | When two texts meet at a non-word character, the names of their concatenation are the names of the first followed by the names of the second |
| SqlPatterns.NoTablesWithout | lib/dml/moodle_read_slave_trait.php:200 | Text lacking some character of the prefix names no table |
| SqlPatterns.TableNamesOfQualifiedName | lib/dml/moodle_read_slave_trait.php:200 | A prefixed identifier on its own yields exactly that identifier |
| SqlPatterns.InterleaveTableNames | lib/dml/moodle_read_slave_trait.php:199-202 | A query made of table-free separator texts and prefixed identifiers yields exactly those identifiers, in order and with repeats |
| SqlPatterns.AppendTable | lib/dml/moodle_read_slave_trait.php:200 | Appending a prefixed identifier after a non-word character appends that identifier to the extracted list |
| SqlPatterns.EnclosedTable | lib/dml/moodle_read_slave_trait.php:200 | A single prefixed identifier between two texts that name no table, delimited by non-word characters, yields exactly that identifier |
| SqlPatterns.NoLockDbWithout | lib/dml/moodle_read_slave_trait.php:155 | Text that lacks a character of `lock_db` does not match `lock_db\b` |
| SqlPatterns.MentionsLockDb | lib/dml/moodle_read_slave_trait.php:155 | `lock_db\b` matches only in texts of at least seven characters |
| SqlPatterns.MentionsLockDbAfter | lib/dml/moodle_read_slave_trait.php:155 | Any query containing `lock_db` followed by the end of the text or a non-word character matches, so it takes the bypass |
| SqlPatterns.NoLockDbInsideWord | lib/dml/moodle_read_slave_trait.php:155 | `lock_dbx` does not match: the word boundary fails before a word character |
| TableNamesExample.NestedQueryTableNames | lib/dml/tests/dml_read_slave_test.php:222-260 | The nested-subquery test query yields user, user, user_enrolments, enrol, user_enrolments, enrol, role_assignments |
| ReadSlave.FirstChoice | lib/dml/moodle_read_slave_trait.php:69-83 | A first choice exists exactly when the option is a non-empty array; it is always one of the listed hosts, and with two or more hosts it is the one at the random index |
| ReadSlave.Fallback | lib/dml/moodle_read_slave_trait.php:99-114 | The fallback loop finds no replica exactly when every host different from the first choice fails; otherwise the handle comes from such a host |
| ReadSlave.ConnectPrimary | lib/dml/moodle_read_slave_trait.php:119-120 | The primary connection succeeds exactly when the primary host connects; its handle becomes both the write and the active handle; failure is a connection error |
| ReadSlave.Connect | lib/dml/moodle_read_slave_trait.php:67-121 | Connect fails exactly when the primary fails, or when the first-choice replica connects and the exclude option is not an array. The latter is always a configuration error, whatever the primary would do, because it is thrown before the primary is tried; every other failure is a connection error. On success, the primary handle is active, the counter is 0 and the ledger is empty. One error is logged exactly when the first choice failed |
| ReadSlaveConnect.FallbackIsFirstSuccess | lib/dml/moodle_read_slave_trait.php:102-113 | Skipping hosts equal to the first choice inside the loop is the same as trying, in list order, the list without the first choice, and taking the first that connects |
| ReadSlaveConnect.ConnectTriesInOrder | lib/dml/moodle_read_slave_trait.php:73-114 | With two or more hosts, the replica is the first host that connects in the attempt order: the picked host, then the others in list order |
| ReadSlaveConnect.ConnectWithoutHostList | lib/dml/moodle_read_slave_trait.php:68-86 | An unset, non-array or empty host list gives no replica, logs nothing, and makes the outcome depend only on the primary |
| ReadSlaveConnect.ConnectSingleHost | lib/dml/moodle_read_slave_trait.php:77-79 | A one-host list is tried once with no fallback; the outcome depends only on that host and the primary |
| ReadSlaveConnect.ConnectOptionsOnFirstChoice | lib/dml/moodle_read_slave_trait.php:88-98 | The latency and exclude options are taken exactly when the first choice connects; after a fallback the defaults (0, no exclusions) remain |
| ReadSlave.TableSafe | lib/dml/moodle_read_slave_trait.php:164-182 | Without a tolerance a table is safe exactly when it is not excluded, not temporary and not written in this session; with a tolerance, a table is safe exactly when it is not excluded, not temporary, and either unwritten or written at least `latency` before `now` (the `>=` of line 175, with `Dirty` counting as time 1); so a safe table carrying a clock mark was written at least `latency` before `now` |
| ReadSlave.ReplicaReadable | lib/dml/moodle_read_slave_trait.php:163-183 | The SELECT loop finishes without `break 2` exactly when every table is not excluded, not temporary, and either unwritten or, with a tolerance, written at least `latency` ago |
| ReadSlave.MarkFor | lib/dml/moodle_read_slave_trait.php:191 | A write is marked `Dirty` (PHP `true`) exactly when there is no tolerance, and otherwise with the clock reading of the query |
| ReadSlave.Record | lib/dml/moodle_read_slave_trait.php:191-194 | The write loop adds exactly the extracted tables to the ledger with the same mark and leaves every other entry unchanged |
| ReadSlave.QueryStart | lib/dml/moodle_read_slave_trait.php:143-197 | `_query_start` never changes the handles, the tolerance, the exclusions or the prefix. The active handle stays or becomes the replica. The counter grows by at most one, and only with a switch to the replica. Ledger keys only grow. Non-SELECTs never switch or count; SELECTs never write the ledger |
| ReadSlave.QueryEnd | lib/dml/moodle_read_slave_trait.php:213-218 | `_query_end` makes the primary active when it is connected, leaves the session exactly as it was when no primary is connected, and changes nothing but the active handle |
| ReadSlave.ReadsSlave | lib/dml/moodle_read_slave_trait.php:127-129 | `perf_get_reads_slave` reports the session's replica-read counter; how it grows is stated by `ReadSlaveRouting.RunCountsReplicaReads` |
| ReadSlaveRouting.BypassLeavesSessionAlone | lib/dml/moodle_read_slave_trait.php:146-157 | Without a replica, for a logging query, or when the SQL mentions `lock_db`, `_query_start` changes nothing |
| ReadSlaveRouting.SelectRouting | lib/dml/moodle_read_slave_trait.php:160-187 | A SELECT switches to the replica and adds exactly 1 to the counter iff every extracted table is safe; otherwise nothing changes; a SELECT naming no table always goes to the replica |
| ReadSlaveRouting.WriteRecording | lib/dml/moodle_read_slave_trait.php:188-195 | INSERT, UPDATE and STRUCTURE give each extracted table a ledger entry: `Dirty` without a tolerance, else `now`. No other entry changes, and the handle and counter stay put |
| ReadSlaveRouting.OtherTypesChangeNothing | lib/dml/moodle_read_slave_trait.php:160-196 | Query types outside the switch change nothing |
| ReadSlaveRouting.ConnectedSessionIsResting | lib/dml/moodle_read_slave_trait.php:119-120 | After a successful connect the primary is connected and active, and the ledger is empty and consistent with the tolerance |
| ReadSlaveRouting.ExecuteKeepsResting | lib/dml/moodle_read_slave_trait.php:209-218 | A query from a resting session runs on the primary or the replica, and leaves the session resting with a consistent ledger |
| ReadSlaveRouting.RunCountsReplicaReads | lib/dml/moodle_read_slave_trait.php:127-129 | From a resting session whose replica differs from the primary, over any run of queries, `perf_get_reads_slave` grows by exactly the number of queries that ran on the replica, never decreases, and grows by at most one per query; every query runs on the primary or the replica |
| ReadSlaveRouting.RunKeepsLedgerKeys | lib/dml/moodle_read_slave_trait.php:188-194 | Over any run, ledger keys are never removed and the connection configuration never changes |
| ReadSlaveRouting.StrictWriteIsPermanent | lib/dml/moodle_read_slave_trait.php:172-181 | Without a tolerance, once a table is in the ledger, every later SELECT naming it runs on the primary, whatever queries come between |
| ReadSlaveRouting.UnrelatedWriteKeepsRouting | lib/dml/moodle_read_slave_trait.php:192-194 | A write that does not name a table leaves that table's safety unchanged |
| ReadSlaveRouting.TolerantReadAfterWrite | lib/dml/moodle_read_slave_trait.php:173-177 | With a tolerance, a SELECT of a table written at time `w` runs on the replica iff `now - w >= latency` |
| ReadSlaveScenarios.NewDbIsFixtureSession | lib/dml/tests/dml_read_slave_test.php:209-220 | The fixture connection succeeds with the primary `test_rw` active, a `test_ro` replica, prefix `test_`, no tolerance, no exclusions, counter 0 and an empty ledger |
| ReadSlaveScenarios.ReadReadWriteRead | lib/dml/tests/dml_read_slave_test.php:262-284 | Two reads run on the replica (counter 1, then 2); the insert and the re-read of the written table run on the primary, and the counter stays at 2 |
| ReadSlaveScenarios.ReadWriteWrite | lib/dml/tests/dml_read_slave_test.php:286-303 | A read on the replica, then an insert and an update on the primary; the counter stays at 1 |
| ReadSlaveScenarios.WriteReadRead | lib/dml/tests/dml_read_slave_test.php:305-325 | After an insert, the written table is read on the primary and another table on the replica; a join naming the written table runs on the primary; the counter ends at 1 |
| ReadSlaveScenarios.FixtureJoin | lib/dml/tests/dml_read_slave_test.php:322 | The join query names `table2` then `table` |
| PhpStrings.ExplodeSpec | cache/stores/redis/addinstanceform.php:86 | `explode` yields one piece more than there are separators, and no piece holds a separator |
| PhpStrings.ImplodeExplode | cache/stores/redis/addinstanceform.php:86 | Joining the pieces with the separator restores the input |
| PhpStrings.ExplodeSingle | cache/stores/redis/addinstanceform.php:97 | The split yields exactly one piece iff the separator does not occur, and that piece is the input |
| PhpStrings.TrimSpec | cache/stores/redis/addinstanceform.php:115 | `trim` returns the infix between the leading and trailing runs of trimmable characters, and the result starts and ends with neither |
| PhpStrings.TrimIdempotent | cache/stores/redis/addinstanceform.php:115 | Trimming twice is trimming once |
| PhpStrings.TrimUntouched | cache/stores/redis/addinstanceform.php:115 | `trim` leaves a string alone iff it is empty or neither end is trimmable |
| RedisForm.IsClusterMode | cache/stores/redis/addinstanceform.php:85 | Cluster mode is requested exactly when `clustermode` is present and neither "" nor "0" (PHP's `empty`) |
| RedisForm.LineMessage | cache/stores/redis/addinstanceform.php:114-130 | The complaint about one line, if any, is always a cluster-server complaint; `LineMessageSpec` states exactly when it is made |
| RedisForm.LineMessageSpec | cache/stores/redis/addinstanceform.php:114-131 | A cluster line draws a complaint iff its trimmed form is not empty in PHP's sense and does not contain exactly one colon; the complaint names the trimmed line |
| RedisForm.ClusterMessagesConcat | cache/stores/redis/addinstanceform.php:114-131 | The complaints about a list are the complaints about its parts, in line order |
| RedisForm.ClusterMessagesEmpty | cache/stores/redis/addinstanceform.php:114-131 | A list draws no complaint iff none of its lines does |
| RedisForm.ClusterMessagesSpec | cache/stores/redis/addinstanceform.php:120-129 | Every complaint names a non-empty server whose colon count is not one |
| RedisForm.ValidateClusterServers | cache/stores/redis/addinstanceform.php:112-138 | A `server` error is added iff some line is complained about, and holds the rendered complaints joined by `<br />`; every other entry is returned unchanged |
| RedisForm.ValidateClusterServersLoop | cache/stores/redis/addinstanceform.php:112-138 | The loop as written (accumulate the rendered complaints in a list, join it at the end if it exists) computes the same errors as the line-by-line definition |
| RedisForm.Validate | cache/stores/redis/addinstanceform.php:83-103 | A `clustermode` error is added iff cluster mode is requested without cluster support. In single-server mode, a `server` error is added iff the field holds a newline. In cluster mode, it is added iff some line draws a complaint. An incoming `clustermode` error is returned unchanged unless line 90 overwrites it, and an incoming `server` error is returned unchanged in single-server mode with a one-line field. No other key is added, changed or removed |
| RedisForm.ValidateAccepts | cache/stores/redis/addinstanceform.php:83-138 | On clean errors the form passes iff either single-server mode has a one-line server field, or cluster mode is supported and no line draws a complaint |
| RedisFormScenarios.DefaultsPass | cache/stores/redis/tests/addinstanceform_test.php:113-115 | The default submission (`something.test:1234`, single-server mode) adds no error |
| RedisFormScenarios.ClusterModeNeedsClusterSupport | cache/stores/redis/tests/addinstanceform_test.php:117-120 | Cluster mode without cluster support adds exactly the `clustermode` error |
| RedisFormScenarios.SingleModeNeedsNoPort | cache/stores/redis/tests/addinstanceform_test.php:122-124 | A host without a port passes in single-server mode |
| RedisFormScenarios.ClusterModeNeedsPorts | cache/stores/redis/tests/addinstanceform_test.php:126-131 | In cluster mode a host without a port adds exactly the `server` error, naming that host |
| RedisFormScenarios.SingleModeAllowsOneServer | cache/stores/redis/tests/addinstanceform_test.php:133-138 | With `clustermode` set to "0", two server lines add exactly the single-server error |
| RedisFormScenarios.SingleModeRefusesTrailingNewline | cache/stores/redis/addinstanceform.php:86-99 | In single-server mode, a server field ending in a newline is refused |
| RedisFormScenarios.BlankLineSkipped | cache/stores/redis/addinstanceform.php:115-118 | A line of blanks draws no complaint in cluster mode |
| RedisFormScenarios.ZeroLineSkipped | cache/stores/redis/addinstanceform.php:115-118 | A line that trims to "0" is skipped, because PHP's `empty` holds for it |
| RedisFormScenarios.EmptyPortAccepted | cache/stores/redis/addinstanceform.php:120-121 | `host:` (one colon, empty port) passes the cluster check |
| RedisFormScenarios.TrimmedServerNamed | cache/stores/redis/addinstanceform.php:115-129 | A port-less line with surrounding blanks is named in its trimmed form |

## Behaviour of the code worth knowing

- The trait has no transaction override. Transactions reach `_query_start` as AUX queries and change nothing there (`OtherTypesChangeNothing`).
- A table written with a tolerance is refused only while `now - written < latency` (line 175). An elapsed time exactly equal to the tolerance already reads from the replica (`TableSafe`, `TolerantReadAfterWrite`).
- `error_log` is called when the first-choice replica fails, whether or not a fallback host then connects. Nothing more is logged when every host fails (`Connect`, field `errorLogs`).
- The tolerance and the excluded tables are applied only when the first-choice replica connects (lines 90-98). A replica found by the fallback loop (lines 102-114) runs with tolerance 0 and no exclusions (`ConnectOptionsOnFirstChoice`).
- A non-array exclude option throws `configuration_exception` (line 96), which the `dml_connection_exception` handler does not catch. `connect` fails before the primary is tried at line 119 (`Connect`).

## Left out

- The native drivers (`mysqli_read_slave_native_moodle_database.php`, `pgsql_read_slave_native_moodle_database.php`) only get and set the driver handle; the model has one abstract active-handle field.
- The parent driver's `connect`, `query_start` and `query_end` are not shown. `connect` is an oracle per host, deterministic per address, so a repeated host in the list gets the same outcome. The other two are omitted.
- `rand` is the argument `pick`; no claim is made about its distribution.
- `microtime(true)` is an integer `now` per query. Floating-point time is not modelled.
- `temptables->is_temptable` and `loggingquery` are inputs. How they are set is not part of this model.
- `error_log` is modelled only as a count of log calls in the connection result.
- `dbhost_readonly` is taken as a list indexed from 0. For an array with other keys, `$ro[0]` and `$ro[$idx]` (lines 78, 82) are null in PHP, so no replica is tried and nothing is logged; the model does not cover that.
- PHP's loose `==` in the fallback loop and in `in_array` is string equality here.
- Handles are strings, and a connected handle is always present. A handle that is falsy in PHP (`""` or `"0"`, as the fixture's fake connect could produce) would make `_query_start` and `_query_end` take the no-replica and no-primary paths. The model does not cover that.
- The table extraction assumes the prefix consists of word characters. The trait interpolates it into the pattern unescaped, so a prefix with regex metacharacters is not modelled.
- The nested-subquery example runs on the query after placeholder expansion, with its layout collapsed to single spaces. Placeholder expansion (`fix_sql_params`) and `get_records` are not part of this model; the fixture's `get_records` query is taken as `SELECT * FROM {<table>}`.
- The last check of the read-read-write-read test re-asserts the handle returned by the insert. The scenario states the handle of that final read instead: the primary.
- `configuration_definition`, `get_string` and `is_cluster_available` are form building, localisation and extension detection. Availability is a flag, and messages are rendered by a parameter.
- RedisForm.Validate: in cluster mode it requires that no `server` error comes in. An incoming `server` string makes line 125 or line 134 fail at run time; the shown caller passes `[]`.
- `cache/stores/redis/tests/cluster_test.php` needs a live Redis cluster, and the trimming it exercises lives in `lib.php`, which is not part of this model.
- `lib/dml/tests/dml_reads_before_write_test.php` needs a live database, and `perf_get_reads_before_write` is not in the modelled trait.
