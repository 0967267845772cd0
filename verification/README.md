# Verification model of the AWS Advanced ODBC driver for MySQL

This project models the parts of the driver whose correctness is hard to see from one function, and proves properties
of them over every input, every run and every interleaving:

* **Cluster failover.** Two tasks race under a shared counter, one reconnecting to the old writer, one looking for a
  new writer through a reader; below them runs a paired race of reader connects. Both races are step machines in which
  one step is one operation on the counter, one connect, one topology query, one publication or one release
  (`FailoverSync`, `WriterFailover`, `WriterFailoverSafety`, `ReaderRace`, `ReaderSearch`, `FailoverHandler`, on the data
  of `Hosts` and `Connections`).
* **Failure detection.** The state of a monitored connection is a function of its history of checks, and the monitor
  keeps a minimum over a changing list (`MonitorContext`, `Monitor`).
* **Statements and cursors.** The one-pass search for a unique key, the WHERE clause of positioned operations, batched
  inserts, substitution of parameter markers, parameter arrays, and the data-at-exec protocol (`UniqueKey`,
  `WhereClause`, `BatchInsert`, `Substitution`, `ParamRows`, `ParamArray`, `DataAtExec`).
* **Caches and parsing.** The lazily purged cache, the token cache and the host list (`CacheMap`, `TokenCache`,
  `HostList`, with the text operations of `Text`).

What the driver gets from outside - connects, topologies, time, random numbers, the server's answers, the order in which
threads run - is a parameter that the environment chooses freely. Where the driver updates an object in place the model
is a class whose methods are proved against functions of its state; the two races are step functions, because their
steps interleave.

## Where code and documentation disagree

The model follows the code. These are the places where its comments, its documentation or its evident intent say
something else; the members named state exactly what holds instead.

* An empty allow list is documented as "no restriction" (driver/allowed_and_blocked_hosts.h:41-48) but removes every
  host (driver/topology_service.cc:185-202): `Hosts.DocumentedFilterCondition`.
* The counter does not elect a single publisher: completion bars every task except one that has passed its last check
  (`WriterFailoverSafety.WhoMayPublishAfterCompletion`), so both tasks may publish (`BothTasksMayPublish`).
* A connection that comes back dead may be overwritten without being released (`DeadConnectionsCanBeLost`). What is left
  open is exactly what is overwritten or never stored (`LeftOpenExactlyWhenDropped`); if no connection dies, nothing is
  (`NothingIsLost`).
* A reader task that fails looks at the counter and reports in two operations; if the pair is completed in between, the
  report throws (`ReaderRace.RunThrowsExactlyWhen`, `WhoMayThrowAfterCompletion`). The exception can hide a connected
  reader (`ReaderRace.ExceptionCanHideAReader`), and nothing catches it on its way out of writer failover
  (`WriterFailoverSafety.SearchExceptionLeavesFailover`).
* 08S02 and 08007 are reported although the session keeps its old connection when the new one is dead at the hand-over
  (driver/connection_handler.cc:93-108); `FailoverHandler.Handler.TriggerFailoverIfNeeded` says when it moves. With at
  most one known host the strict-reader mode goes to the writer.
* The comment in the host-list parser promises to tell "0" from "no number" (driver/connect.cc:248-252); the test looks
  at the length, so "host:abc" is port 0 (`HostList.NoNumberIsPortZero`).
* The clean-up interval is commented as ten minutes and is one (driver/cache_map.h:67). The three-argument look-up may
  read an entry its own sweep has just removed (driver/cache_map.cc:52-57): `CacheMap.Cache.GetOrPut` says when,
  `CacheMap.MissingEntryIsRead` is such a call.
* A cache key of tokens determines its request exactly for a region and host without a colon and a user that hides no port
  (`TokenCache.KeyPinsRequest`); among requests of one port and user the first condition alone decides
  (`TokenCache.KeyPinsRegionAndHost`).
* A table without columns would have the last separator cut out of the keyword (`WhereClause.NoTermsCutTheKeyword`). The
  count of key columns alone does not show that each is present (`WhereClause.CountAloneIsNotEnough`).
* A batched insert and a WHERE clause over a known key do not empty the statement's buffer before they begin, and leave it
  as it is when a value fails to render (driver/cursor.cc:426-428, 474-484, 1468-1470). The next operation of the same
  statement then puts the leftover in front of its first value: exactly in the cases of
  `BatchInsert.SentAsSpecifiedExactlyWhenEmpty` and `WhereClause.ClauseAsSpecifiedExactlyWhen`, and as in the retries
  `BatchInsert.RetryCarriesLeftover` and `WhereClause.RetryCarriesLeftover`.
* In a parameter array of a statement other than SELECT, a row that fails to render leaves its text in the buffer and
  spoils the next row (`ParamRows.OwnQueryWithoutFailure`); rows are independent exactly as far as the buffer is clean
  (`ParamRows.RowSendsItsOwnQueryExactlyWhenClean`, `FailedRowSpoilsTheNext`). A SELECT array whose last row is ignored
  never runs (`ParamRows.SelectNeedsItsLastRow`). A warning of rendering is overwritten by the status of the query.
* Data put before the first call of SQLParamData goes to the record before the first data-at-exec parameter
  (`DataAtExec.Delivered` describes it).

## Model

| member | source | states |
|---|---|---|
| FailoverSync.Counter.MarkAsComplete | driver/failover_writer_handler.cc:45-57 | the method on the shared object is the operation the theorems below speak of, and throws exactly for a plain report to a process that is already over |
| FailoverSync.CompletionIsPermanent | driver/failover_writer_handler.cc:40-68 | over every sequence of operations the counter stays between zero and its start, and completion is never taken back |
| FailoverSync.DoneExactlyWhen | driver/failover_writer_handler.cc:40-68 | a process of n tasks is over if and only if one operation cancelled it or n failures were reported |
| WriterFailoverSafety.Reachable | driver/failover_writer_handler.cc:118-276 | the invariant of both tasks, their connections and the caller holds after every interleaving |
| WriterFailoverSafety.ReturnedResultIsSound | driver/failover_writer_handler.cc:302-384 | a connected result carries a published connection to the writer of the topology returned with it; the host is new iff that writer is not the original one |
| WriterFailoverSafety.CallerReturnsExactlyWhat | driver/failover_writer_handler.cc:340-384 | over every run the caller has returned a connected result if and only if at some step it asked a task that had ended with one, and then that task's; it has returned "not connected" if and only if it had read both results in vain or its time had run out; a result counts as read exactly from the first step on that asked its task after its end |
| WriterFailoverSafety.CallerComesBack | driver/failover_writer_handler.cc:340-379 | from any state the caller has returned or thrown after five of its own steps once the time has run out, and after six, whatever the clock says, once both tasks have ended |
| WriterFailoverSafety.EitherTaskCanStillSucceed | driver/failover_writer_handler.cc:118-276 | from every state a run reaches before completion no task has ended, and one that has not thrown can still publish, whatever has gone wrong until then: task A for a named original writer, task B for any other host that is elected, over a new connection should those it has turn out to be dead |
| WriterFailoverSafety.PublishedWasAlive | driver/failover_writer_handler.cc:118-213 | over every run a task publishes only a connection that was alive when it received it, task B only one still alive at the test right before its publication |
| WriterFailoverSafety.OldWriterIsHandedOut | driver/failover_writer_handler.cc:118-157 | a run in which task A reconnects and the caller gets that connection to the old writer |
| WriterFailoverSafety.NewWriterIsHandedOut | driver/failover_writer_handler.cc:218-276 | a run in which the reader found is the new writer and the caller gets its connection, and one in which the reader names the new writer and the caller gets the connection to that, the reader's being released |
| WriterFailoverSafety.NoConnectionIsMisused | driver/failover_writer_handler.cc:89-105 | in no interleaving is a connection used, released or published that is missing, released or published, aliasing of reader and new connection included; nor does the topology refresh ever find the reader connection or host missing |
| WriterFailoverSafety.FinalStatusStays | driver/failover_writer_handler.cc:130-157 | a released or published connection keeps that state for ever |
| WriterFailoverSafety.RunThrowsExactlyWhen | driver/failover_writer_handler.cc:118-276 | over every run a task has thrown if and only if some step gave it a topology with hosts and no writer, an exception of a connect or an exception of its reader search; failover() throws if and only if it asks such a task for its result |
| WriterFailoverSafety.NoThrow | driver/failover_writer_handler.cc:302-384 | if every topology with hosts names a writer and neither a connect nor a reader search throws, no task and no caller throws |
| WriterFailoverSafety.SearchExceptionLeavesFailover | driver/failover_writer_handler.cc:218-233 | a paired race that ends in an exception, and a run with that very outcome in which failover() throws although every topology names a writer and no connect of its own throws |
| WriterFailoverSafety.TopologiesAreHandedOn | driver/failover_writer_handler.cc:235-250 | whatever holds of the first topology and of every answer holds of every topology a result carries |
| WriterFailoverSafety.CompletionEndsTheTasks | driver/failover_writer_handler.cc:118-250 | completion is permanent; after it task A ends within five of its own steps and task B within seven, so no loop begins another round |
| WriterFailoverSafety.WhoMayPublishAfterCompletion | driver/failover_writer_handler.cc:130-157 | after completion a task can still publish if and only if it stands between its last check and its publication |
| WriterFailoverSafety.NothingIsLost | driver/failover_writer_handler.cc:194-276 | if connections stay alive, each one a task received is released or published when the task has returned |
| WriterFailoverSafety.LeftOpenExactlyWhenDropped | driver/failover_writer_handler.cc:118-276 | over every run, dead connections included: what a returned task received and left open is exactly what one of its steps overwrote or never stored, and a task that threw leaves what it holds open besides |
| WriterFailoverSafety.LossesAlong | driver/failover_writer_handler.cc:118-276 | from every reachable state a connection is lost after a run iff it was lost before or some step dropped it |
| WriterFailoverSafety.DeadConnectionsCanBeLost | driver/failover_writer_handler.cc:118-157 | a run in which task A ends while a connection it received is still open |
| WriterFailoverSafety.CounterRunsAsShared | driver/failover_writer_handler.cc:40-68 | the counter of the machine is the shared counter after the operations its steps carry out |
| WriterFailoverSafety.CompletedExactlyWhen | driver/failover_writer_handler.cc:302-340 | writer failover is completed iff a task has reported success or the caller has stopped waiting |
| WriterFailoverSafety.BothTasksMayPublish | driver/failover_writer_handler.cc:186-213 | a run in which both tasks publish different connections |
| ReaderRace.WinnerIsOneOfThePair | driver/failover_reader_handler.cc:276-317 | the reader a pair yields is one of its hosts with a published connection to exactly that host |
| ReaderRace.SearchLeavesExactlyWith | driver/failover_reader_handler.cc:218-254 | over every run the search leaves with a reader if and only if at some step it asked a task that had ended with one, and then with that task's; it leaves without one if and only if every task of the pair was read in vain or the time had run out; a result counts as read exactly from the first step on that asked its task after its end |
| ReaderRace.ConnectedHostIsHandedOut | driver/failover_reader_handler.cc:218-244 | for every pair and every single host a run in which the first host is handed out, and for every pair one in which the second is |
| ReaderRace.PublishedReaderWasAlive | driver/failover_reader_handler.cc:276-317 | a reader is published only over a connection that was alive when the task received it |
| ReaderRace.WhoMayPublishAfterCompletion | driver/failover_reader_handler.cc:276-303 | after completion a task can still publish iff it stands between its last check and its publication |
| ReaderRace.CompletedExactlyWhen | driver/failover_reader_handler.cc:184-216 | a pair is completed iff the search has stopped waiting, a task has reported a reader, or each of its tasks, two or one, has reported a failure |
| ReaderRace.PairComesToAnEnd | driver/failover_reader_handler.cc:218-254 | each task ends within five of its own steps, and the search leaves within five of its own once the time has run out and within six once the tasks have ended |
| ReaderRace.RacersLoseNothing | driver/failover_reader_handler.cc:276-317 | no connection is misused, and a task that ends has released or published each connection it received, dead ones included |
| ReaderRace.RunThrowsExactlyWhen | driver/failover_reader_handler.cc:276-317 | over every run a task has thrown iff at some step its connect did or it reported its failure to a counter that was already done |
| ReaderRace.WhoMayThrowAfterCompletion | driver/failover_reader_handler.cc:276-317 | after completion a task can still throw iff it is about to connect, or has failed, has looked at the counter and has not reported |
| ReaderRace.SearchThrowsExactlyWhen | driver/failover_reader_handler.cc:218-244 | over every run the search leaves with an exception iff it asked a task that had thrown for its result |
| ReaderRace.ExceptionCanHideAReader | driver/failover_reader_handler.cc:305-315 | a run in which the search leaves with an exception although the second task has published a reader |
| ReaderSearch.Shuffle | driver/failover_reader_handler.cc:135-171 | shuffling in place permutes |
| ReaderSearch.BuildHostsList | driver/failover_reader_handler.cc:135-171 | the list is a permutation of the readers, up before down, then a permutation of the writers if wanted |
| ReaderSearch.GetConnectionFromHosts | driver/failover_reader_handler.cc:173-264 | the indices submitted are 0, 1, 2, ... each once; without a reader or exception all were submitted, an odd last one included, or the search was found cancelled; a reader comes from the last pair submitted and every earlier pair was empty; the connection of a reader leads to the host reported |
| ReaderSearch.GetReaderConnection | driver/failover_reader_handler.cc:115-131 | the rounds before the last found the failover not completed and their walks empty; the search gives up in the first round that finds it completed, and otherwise its connection leads to the reader it names |
| ReaderSearch.Failover | driver/failover_reader_handler.cc:63-110 | after empty rounds, each over its own list, the search gives up exactly when the failover is completed or ends with what its last round found, unless the caller stopped waiting; the connection leads to the instance named, in strict-reader mode a reader |
| ReaderSearch.EmptyRoundIsExhausted | driver/failover_reader_handler.cc:115-131 | completion being permanent, a round without a reader that is not followed by a completed failover has tried its whole list |
| ReaderSearch.EarlierRoundsAreExhausted | driver/failover_reader_handler.cc:76-88 | every round of a reader failover but the last has tried every host of its own list |
| Hosts.GetFilteredTopology | driver/topology_service.cc:185-202 | the loop that re-adds allowed instances computes both role lists filtered in place |
| Hosts.FilterKeepsAllowed | driver/topology_service.cc:185-202 | the filtered topology has exactly the allowed hosts, each in its role |
| Hosts.KeptHostByHost | driver/topology_service.cc:185-202 | of two lists one behind the other the filter keeps what it keeps of each, in this order, and of a single host that host iff it is allowed |
| Hosts.DocumentedFilterCondition | driver/allowed_and_blocked_hosts.h:41-48 | the code agrees with the documented rule exactly when the allow list is not empty or every host is blocked |
| FailoverHandler.Handler.FailoverToReader | driver/failover_handler.cc:507-528 | succeeds if and only if the search over the allowed hosts found a reader before the caller stopped waiting, and throws if and only if it threw before that; success names the host found, an allowed instance, in strict-reader mode a reader, and the session follows the published connection, which leads there; it decides the error code |
| FailoverHandler.Handler.FailoverToWriter | driver/failover_handler.cc:530-572 | succeeds if and only if writer failover comes back with a connection and the filter allows the writer of its topology, throws if and only if writer failover does; topology and host are replaced exactly when a new writer was found, allowed or not |
| FailoverHandler.WriterPathExactlyWhen | driver/failover_handler.cc:530-572 | in terms of the run: a writer is found iff the caller asks a task that has ended with one, taken iff besides the filter allows the first writer of that task's topology; an exception iff the known topology has hosts but no writer or the caller asks a task that threw |
| FailoverHandler.ReaderMissedExactlyWhen | driver/failover_handler.cc:507-528 | with an allowed host and permanent completion: no host and no exception, though the caller waits, only if the failover was found completed, and every list but the last was tried to its end; a host or an exception only for a caller that waits |
| FailoverHandler.Handler.TriggerFailoverIfNeeded | driver/failover_handler.cc:448-505 | when failover starts, exactly when a host is chosen and exactly when it throws on either path, which code is reported (08007 exactly for an open transaction on success), which host is chosen - the one the search found on the reader path, an instance of the known topology, the writer of the topology found otherwise, allowed by the filter - and when the session moves there |
| MonitorContext.TrailingFailuresAreTheSuffix | driver/monitor_connection_context.cc:150-184 | the run of failures is the longest suffix of the history without a valid check |
| MonitorContext.StartIsTheFirstFailure | driver/monitor_connection_context.cc:90-106 | with positive time stamps the recorded start is that of the first failing check of the run |
| MonitorContext.DeadExactlyAfterLimit | driver/monitor_connection_context.cc:160-175 | for any limit: the node is dead iff some check of the run ended at least the limit after the first failing check began |
| MonitorContext.Context.DeadAfterIntervalTimesCount | driver/monitor_connection_context.cc:160-175 | the flag of a context, in its settings: with positive interval, count and time stamps it is set iff some check of the run ended at least interval times count milliseconds after the first failing check began; a count of zero or less makes the limit zero |
| MonitorContext.LatestCheckDecides | driver/monitor_connection_context.cc:160-175 | under a clock that does not run backwards the latest check alone decides |
| MonitorContext.Context.SetConnectionValid | driver/monitor_connection_context.cc:150-184 | count, start and verdict remain the functions of the history, which grows by the check; the socket is closed once for every failing check of an active context that reaches the limit, written out in interval and count for positive settings |
| MonitorContext.Context.UpdateConnectionStatus | driver/monitor_connection_context.cc:133-148 | a check counts iff the context is active and the check ends after the grace period |
| Monitor.Monitor.StartMonitoring | driver/monitor.cc:88-102 | the kept interval remains the minimum over the grown list |
| Monitor.Monitor.StopMonitoring | driver/monitor.cc:104-120 | the context is gone, deactivated, and the interval is the minimum of the rest, also when the minimum was removed |
| Monitor.WithoutOneByOne | driver/monitor.cc:104-120 | removing a context takes it out wherever it is registered and keeps all others, as often and in the order they were |
| Monitor.Monitor.ClearContexts | driver/monitor.cc:130-137 | no contexts and the maximum duration |
| Monitor.Monitor.FindShortestInterval | driver/monitor.cc:242-260 | the scan yields the minimum, or the maximum duration for an empty list |
| Monitor.Monitor.GetCheckInterval | driver/monitor.cc:185-192 | zero without contexts, the minimum otherwise |
| Monitor.Monitor.UpdateContexts | driver/monitor.cc:149-163 | the pass after a check counts it for every registered active context past its grace period |
| Monitor.AfterCountsRegistrations | driver/monitor.cc:149-163 | it is counted once for each time the context is registered |
| CacheMap.TablesAgree | driver/cache_map.cc:36-93 | in every legal run the lazily purged table lacks only expired entries of the plain one |
| CacheMap.CleanUpIsInvisible | driver/cache_map.cc:44-49 | under every schedule of sweeps each look-up answers as a table that never purges |
| CacheMap.LookupFindsTheLastPut | driver/cache_map.cc:36-65 | a look-up in the plain table finds the value put last under the key until its expiry time has passed, and the default otherwise, after a removal or clearing too; other keys, look-ups and sweeps do not matter |
| CacheMap.Cache.CleanUp | driver/cache_map.cc:77-93 | only expired entries go; a due sweep removes all that had expired and sets the next time |
| CacheMap.Cache.Put | driver/cache_map.cc:36-41 | the plain table gains the entry with its expiry time |
| CacheMap.Cache.Get | driver/cache_map.cc:43-49 | the answer is that of the plain table at the time of the look-up |
| CacheMap.Cache.GetOrPut | driver/cache_map.cc:51-57 | a live entry is returned, otherwise the default is stored; a missing entry is read only if a sweep was due and the new entry has expired, and certainly for a negative lifetime and a sweep due at the call |
| CacheMap.MissingEntryIsRead | driver/cache_map.cc:51-57 | a call that reads a missing entry |
| CacheMap.Cache.Remove | driver/cache_map.cc:59-65 | the plain table loses the key |
| TokenCache.KeyIsInjective | driver/auth_util.cc:103-113 | requests without colons in region and host never share a key, whatever the user |
| TokenCache.KeyPinsRegionAndHost | driver/auth_util.cc:103-113 | the key determines region and host for its port and user if and only if neither has a colon |
| TokenCache.KeyPinsRequest | driver/auth_util.cc:103-113 | among all requests a key determines the request if and only if region and host have no colon and no decimal segment of the user is followed by one |
| TokenCache.KeysSeparateRequests | driver/auth_util.cc:61-113 | the token found under a key is the one generated last for exactly that request |
| TokenCache.LatestIsTheLast | driver/auth_util.cc:61-101 | what the log has under a key, and for a request, is the token of the last entry of that key or request |
| TokenCache.CollidingRequestsShareTokens | driver/auth_util.cc:61-113 | with a colon another request finds a token never generated for it |
| TokenCache.Cache.GetAuthToken | driver/auth_util.cc:61-101 | a cached token is returned iff none is forced and the latest one generated for the request is unexpired; otherwise a new one is filed |
| HostList.AcceptedExactlyWhen | driver/connect.cc:244-262 | a list is accepted iff no item has a rejected port |
| HostList.PortIsRead | driver/connect.cc:244-262 | behind any white space and a sign, and before anything that is no digit, the number is the port; it is rejected iff it is above 65535 or below zero |
| HostList.SplitIsExact | driver/connect.cc:222-275 | the items hold no comma, and joined by commas they are the text again |
| HostList.ItemParts | driver/connect.cc:228-262 | a name without a colon takes the default port and is never rejected; behind the first colon all is the port text |
| HostList.ParseItem | driver/connect.cc:228-262 | one round of the loop reads one comma separated item, cut at its first colon |
| HostList.ParseHostList | driver/connect.cc:222-275 | the position-moving loop ends on every input and equals splitting at commas and cutting at colons; an error names the text |
| HostList.HostListRoundTrip | driver/connect.cc:222-275 | the text of any list of names without separators and ports 0..65535 parses to that list for any default port |
| HostList.NoNumberIsPortZero | driver/connect.cc:248-252 | a port text without a number is rejected iff it is empty and is port 0 otherwise |
| UniqueKey.HaveFieldInResult | driver/cursor.cc:179-198 | whether a column of that name, in any case, is in the result set |
| UniqueKey.SameNameIgnoresOnlyCase | driver/cursor.cc:188-193 | two names are the same iff they have the same characters up to the case of letters |
| UniqueKey.KeyCursor.CheckIfUsableUniqueKeyExists | driver/cursor.cc:210-278 | the loop stores what the pass specifies, once; a failed query leaves the search open |
| UniqueKey.ScanFindsFirstUsable | driver/cursor.cc:210-278 | for keys of at most 32 columns the pass stores exactly the columns of the first unique key wholly in the result set, or none |
| UniqueKey.FirstUsableIsTheFirst | driver/cursor.cc:210-278 | the answer is the columns of the first key that is unique and wholly in the result set, and none if there is no such key |
| UniqueKey.FirstUsableIsPresent | driver/cursor.cc:210-278 | every stored column is in the result set |
| WhereClause.Statement.InsertField | driver/cursor.cc:445-497 | a term is completed to a literal or to IS NULL, each with the separator; a literal takes all that is in the buffer with it, a failure leaves its text there |
| WhereClause.Statement.InsertPkFields | driver/cursor.cc:507-546 | succeeds iff the key fields render and are as many as the key columns, and appends exactly their terms as they read behind what is in the buffer; what is left in the buffer, on failure too |
| WhereClause.Statement.AppendAllFields | driver/cursor.cc:555-652 | succeeds iff every table column is exact and has a rendering field and the numbers agree, and appends exactly their terms; its own query empties the buffer first |
| WhereClause.Statement.BuildWhereClause | driver/cursor.cc:660-704 | it is built iff the chosen fields are all there and render; then it is the keyword, the terms joined by AND without a dangling separator, and the limit; with a key found for this clause every key column is matched by exactly one field and by exactly one term, which is that of the field; with a key found earlier the values read behind what is in the buffer, otherwise a query has emptied it |
| WhereClause.FinishedClause | driver/cursor.cc:686-700 | cutting five characters off the terminated terms gives the join |
| WhereClause.ClauseAsSpecifiedExactlyWhen | driver/cursor.cc:474-490 | behind text left in the buffer the clause reads as specified iff that text is empty or no value is a literal |
| WhereClause.LeftByFailure | driver/cursor.cc:474-484 | a value that fails leaves its partial text behind what was left over, unless a literal before it has taken that |
| WhereClause.RetryCarriesLeftover | driver/cursor.cc:474-490 | a clause built again after a key value failed has the digits of the failed attempt in it |
| WhereClause.CountForcesEachColumnOnce | driver/cursor.cc:536-543 | if all key columns are present, the count test passes iff each matches exactly one field |
| WhereClause.KeyFieldsInOrder | driver/cursor.cc:507-534 | the key fields are the fields at exactly the positions that bear the name of a key column, each once, in increasing order |
| WhereClause.OneTermEach | driver/cursor.cc:507-534 | key columns matched by one field each are matched by exactly one of the fields the clause is made of |
| WhereClause.TermsAt | driver/cursor.cc:445-497 | the k-th term is the quoted name of the k-th field with its literal or IS NULL |
| WhereClause.TableFieldsAreTheColumns | driver/cursor.cc:603-648 | without a key the i-th field is the first that bears the name of the i-th table column; there is none for some column only if it is inexact or no field has its name |
| WhereClause.LimitReadsBack | driver/cursor.cc:692-700 | the limit reads back as the size of the array for row number zero and as one otherwise |
| WhereClause.KeyClauseNamesEachColumnOnce | driver/cursor.cc:507-546 | with the columns the search found in this result set, the count test passes iff every key column matches exactly one field, and then exactly one of the clause's fields |
| WhereClause.CountAloneIsNotEnough | driver/cursor.cc:536-543 | two fields of one name make up for a missing key column |
| WhereClause.NoTermsCutTheKeyword | driver/cursor.cc:686-689 | without terms the cut falls into the keyword |
| BatchInsert.Inserter.AppendRow | driver/cursor.cc:1396-1474 | a row becomes one tuple of comma separated cells, the first behind what is in the buffer; a row that fails leaves its cells up to the failing one there |
| BatchInsert.ResidueMeans | driver/cursor.cc:1396-1474 | a row that fails at some cell leaves what was left over, the cells before it with their commas, and the partial text |
| BatchInsert.Inserter.FillStatement | driver/cursor.cc:1393-1486 | a statement takes rows up to the first that fills it or the last row |
| BatchInsert.FullMeans | driver/cursor.cc:1476-1484 | a block ends at the row with which the finished statement and another tuple of that row's length come to the buffer's size |
| BatchInsert.Inserter.BatchInsert | driver/cursor.cc:1353-1495 | what was sent is one statement for each block of rows in order, without trailing commas, the rows as they read behind what was in the buffer; success iff no row is left; a failure is a refused statement or a row that does not render and leaves its text, and what was sent is a prefix |
| BatchInsert.SentAsSpecifiedExactlyWhenEmpty | driver/cursor.cc:1466-1474 | once something is sent it is what the rows call for iff the buffer was empty when the operation began |
| BatchInsert.RetryCarriesLeftover | driver/cursor.cc:1466-1474 | a row corrected after its second column failed is sent with the first column's text twice |
| BatchInsert.BlocksAreTheRows | driver/cursor.cc:1384-1495 | the blocks one after the other are exactly the rows up to the last cut |
| BatchInsert.CutsAreDetermined | driver/cursor.cc:1476-1484 | base text, rows and size limits decide where every statement ends |
| Substitution.FilledThenSubstituted | driver/execute.cc:340-403 | substituting marker by marker equals substituting character by character, at every marker |
| Substitution.WholeQuery | driver/execute.cc:402-412 | the text after the last marker completes the substituted query |
| Substitution.LastMarker | driver/execute.cc:340-412 | a query without markers stays as it is, and the last marker of any query is replaced by its text, whatever stands before and behind |
| Substitution.ResidueMeans | driver/execute.cc:380-399 | what a failing rendering leaves is the query substituted up to the marker of the first bad parameter and its partial text, or up to the marker before an unbound one |
| Substitution.RenderingMeans | driver/execute.cc:340-399 | rendering fails iff some parameter cannot be rendered, warns iff all can and some warn; each rendered parameter contributes its own text |
| ParamArray.Statement.InsertParams | driver/execute.cc:331-421 | appends exactly the query with the i-th marker replaced by the i-th rendering and all else unchanged, or what precedes the failure |
| ParamArray.Statement.RunRow | driver/execute.cc:1580-1669 | one row advances buffer, queries sent and connection state as specified and reports its outcome |
| ParamArray.Statement.ProcessRows | driver/execute.cc:1517-1670 | the loop reaches every row, or the first that data-at-exec parameters stop |
| ParamArray.Statement.Execute | driver/execute.cc:1417-1718 | from an empty buffer, whatever was in it: the texts sent, rows processed, the final status of every row, the return code, and the refusal or request of data-at-exec parameters |
| ParamRows.WhatTheFlagsMean | driver/execute.cc:1590-1669 | the loop's flags are: some row worked, some row deviated, the last row that failed |
| ParamRows.WhatBecomesOfARow | driver/execute.cc:1580-1669 | in terms of flag, parameters and answers: a row's query runs iff the row is included, renders and, for a SELECT, is the last; it fails iff a parameter does not render, the connection was lost before or the query reports an error |
| ParamRows.StatusesMean | driver/execute.cc:1634-1677 | a status is UNUSED iff the row is ignored, ERROR iff it is the last row that failed, DIAG_UNAVAILABLE iff a later one failed too, SUCCESS iff it went without a warning of the query that was run or, without one, of rendering |
| ParamRows.NothingIsSentAfterALoss | driver/execute.cc:1628-1650 | once the connection counts as lost nothing more is sent, and every later row whose turn comes fails |
| ParamRows.MarkedStatusesAreFinal | driver/execute.cc:1672-1677 | exactly the last failed row is ERROR, earlier failures are DIAG_UNAVAILABLE, ignored rows UNUSED |
| ParamRows.SelectSendsTheUnion | driver/execute.cc:1582-1628 | from an empty buffer a SELECT that includes its last row sends the UNION ALL join of the own queries of the rows included, when these render |
| ParamRows.SelectNeedsItsLastRow | driver/execute.cc:1628-1633 | a SELECT array is sent once, and iff its last row is included and rendered |
| ParamRows.BufferIsEmptyExactlyWhenClean | driver/execute.cc:1580-1669 | the buffer is empty before a row iff whatever was left was followed by a query that emptied it |
| ParamRows.RowSendsItsOwnQueryExactlyWhenClean | driver/execute.cc:1580-1633 | a row sends its own query if and only if the buffer is clean before it |
| ParamRows.OwnQueryWithoutFailure | driver/execute.cc:1580-1633 | a row sends its own query unless a row failed since the last one that succeeded |
| ParamRows.WithoutFailureEachIsSent | driver/execute.cc:1580-1633 | as long as no row fails, exactly the own queries of the rows included are sent, in order |
| ParamRows.FailedRowSpoilsTheNext | driver/execute.cc:399-412 | after a row that failed to render, the next row sends something else |
| DataAtExec.PendingAreDae | driver/desc.cc:248-265 | exactly the data-at-exec positions are asked for, in increasing order |
| DataAtExec.EachIsRequestedOnceThenExecuted | driver/execute.cc:1858-1906 | over every run of any of the three kinds of session, SQLParamData replies once to each call: it names each pending parameter once in increasing order, then executes the operation of that kind once, then is rejected |
| DataAtExec.ExecutesWhatIsThere | driver/execute.cc:1858-1906 | a run executes iff it has more calls of SQLParamData than pending parameters, and that call executes what the records then hold |
| DataAtExec.DataReachesItsParameter | driver/execute.cc:1927-1971 | at the execution each parameter holds exactly what was put between the call that named it and the next, a null value told apart from an empty one, and nothing else changed |
| DataAtExec.ChunksAreCollected | driver/execute.cc:1927-1971 | chunks are put one behind the other, a null value takes all of them back, and the next request ends the collection |
| DataAtExec.PutAfterItsRequest | driver/execute.cc:1927-1971 | what is put after the k-th request is what the calls behind it collect |
| DataAtExec.Statement.FindDaeRec | driver/desc.cc:248-265 | the first data-at-exec record, or none |
| DataAtExec.Statement.SetPos | driver/cursor.cc:1574-1609 | when data is asked for, refused or not needed; once it is done the operation never asks again |
| DataAtExec.Statement.AskForParameters | driver/execute.cc:1558-1578 | a single row with data-at-exec parameters opens a session with all of them pending |
| DataAtExec.Statement.FindNextDaeParam | driver/execute.cc:1745-1784 | the loop names and empties the next pending parameter |
| DataAtExec.Statement.ParamData | driver/execute.cc:1787-1906 | each call replies as the protocol; an execution ends the session for statements and for positioned operations alike |
| DataAtExec.Statement.PutData | driver/execute.cc:1927-1971 | the chunk goes to the record before the current position |

## Left out

- WriterFailover.Apply: the tasks are step functions on values rather than methods on objects, because their steps interleave; memory races on unlocked fields, condition variables, sleeping and thread-pool sizing are not modelled, every step is atomic.
- WriterFailoverSafety.RunThrowsExactlyWhen: a topology service that answers with no topology at all (driver/topology_service.cc:182), which both tasks would dereference unchecked; memory exhaustion other than for a connection handle.
- WriterFailoverSafety.LeftOpenExactlyWhenDropped: says nothing about a published connection that the caller drops because the other task's result was returned or it stopped waiting; the code does not conserve those.
- WriterFailoverSafety.CompletionEndsTheTasks: counts a connect, a topology query and the nested reader search as one step each; how long they take is the environment's matter.
- ReaderSearch.Failover: that the search ends is assumed (a round in which it is found completed, and pairs whose polling ends), since it depends on time; that polling ends once each participant has taken a few steps is `ReaderRace.PairComesToAnEnd`.
- ReaderSearch.GetConnectionFromHosts: marking hosts up and down only appears as the set of hosts that are down when a list is built.
- FailoverHandler.Handler.TriggerFailoverIfNeeded: the tests of is_failover_enabled are one flag; messages, logging and metrics are not modelled. A host is looked up in the filtered topology by value where the code compares pointers.
- MonitorContext.Context.UpdateConnectionStatus: overflow of interval times count and the socket itself; closing it is a counter.
- Monitor.Monitor.UpdateContexts: the surrounding loop of run with its sleeping, the monitor threads and their container, and the check of the connection.
- CacheMap.Cache.GetOrPut: reading a missing entry is a result value, not the undefined behaviour it is in the code.
- TokenCache.Cache.GetAuthToken: the signing of tokens is a parameter; tokens are filed by one caller at a time.
- HostList.ParseHostList: overflow of atol, and names longer than the driver's buffers.
- UniqueKey.ScanFindsFirstUsable: keys of more than 32 columns (the server has none above 16) and functional key parts, whose column name is NULL.
- WhereClause.Statement.BuildWhereClause: server-side prepared result sets and the search for the used table; reserved memory is not modelled.
- BatchInsert.Inserter.BatchInsert: result sets without columns, bookmarks, row status arrays and affected rows; rendering of a cell is its text or a failure with partial text.
- ParamArray.Statement.InsertParams: server-side prepared binding, dummy executions and allocation failures; rendering of a parameter is its text, a failure, or a missing binding.
- ParamArray.Statement.Execute: statements with WHERE CURRENT OF, SET NAMES, a missing query, and the reset of a modified query; do_query is its return code and whether it came to reset the buffer.
- DataAtExec.Statement.ParamData: output streams and long data sent directly to the server; a change of the row descriptor between two calls.
- DataAtExec.Statement.PutData: the bookmark record that a put before the first call can reach when bookmarks are on, and calls outside a session, which the code does not guard.
- Metrics histograms: their counts are not conserved, and nothing depends on them.
- Catalog queries, SQLGetInfo, character sets, logging, handle allocation and set-up programs: constant tables and forwarding without state of their own.
- SAML and secrets authentication: exchanges with services outside the driver.
