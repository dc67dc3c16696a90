# One-shot student import of MyPreLoadData, modelled in Dafny

This project models the one-shot import task of the Android app MyPreLoadData
(`LoadDataAsync`, nested in `DataManagerService`). When the app runs for the
first time, the task reads a raw resource of tab-separated student lines
(name, student number `nim`) and turns them into records. It then inserts the
records into the student database helper inside one transaction and publishes
progress to the bound activity. It polls for cancellation before each insert
and once after the loop. The transaction is committed only when the loop
completes without cancellation, and the persisted first-run flag records the
outcome. Once the task is cancelled, the progress it publishes is dropped and
its result is not reported. When the data was imported before, the task only
publishes 50 and 100 and reports success.

Modules:

- `Wrappers` (`wrappers.dfy`): `Option`, standing for a Java reference that may be null.
- `Loader` (`loader.dfy`): Java's `String.split("\t")` (`Split`), the per-line
  parse (`ParseLine`), the specification of the loaded dataset
  (`LongestGoodPrefix`), the reading loop `PreLoadRaw`, and their properties
  (split/join round trip, the shape of a parsed line, uniqueness of the dataset,
  truncation at a malformed line).
- `Storage` (`storage.dfy`): the database helper as a class with durable rows
  (`committed`), staged rows (`pending`), the open, in-transaction and marked
  flags, and a ghost history of calls. Also the first-run preference, as a class
  with the flag and a ghost record of what was written to it.
- `Session` (`session.dfy`): what a run must do, as functions of the number of
  records n, the first-run flag, the cancellation point and the failing insert.
  These are `EndingOf`, `Inserted`, the progress values, the notification log
  and the helper calls, with lemmas on progress order, the log's shape and the
  records inserted.
- `Coordinator` (`coordinator.dfy`): the task as a class. Its `events` field is
  what the observer receives, and its `cancelled` field is the task's cancelled
  state, which makes `PublishProgress` drop its value and keeps `Execute` from
  running `OnPostExecute`. Its methods (`OnPreExecute`, `DoInBackground` and its
  parts, `OnPostExecute`, `Execute`) are proved to produce exactly the outcome
  the `Session` functions prescribe. A client, `ImportTwice`, runs the task
  twice against the same database.

Inputs that stand for what the task cannot see:

- `raw: Option<seq<string>>` is the raw resource's lines. `None` means the
  resource cannot be opened; that exception is caught and yields no record.
- `cancelAt: nat` is the first cancellation poll that sees a cancel request.
  Poll j < n precedes the insert of record j, and poll n is the post-loop poll.
  The request is taken to arrive just before poll `cancelAt`, and it is never
  withdrawn. A `cancelAt` above n means no poll sees a request.
- `failAt: Option<nat>` is the index of the record whose insert raises, if any.

## Behaviour of the code worth knowing

- A malformed line does not abort the import. The reading loop catches the
  exception and returns the records read so far. The import then proceeds with
  that truncated dataset and can succeed (`MalformedLineTruncates`).
- A line with a name and only empty fields after it (`"Ada\t"`) yields no
  record, because `split` drops trailing empty fields (`ParseJoined`).
- After the transaction, 100 is published whatever the outcome, so a failed
  insert is reported as 100 followed by the failure notice. A cancelled task
  drops that 100 (`ImportLog`, `BackgroundLogProgress`).
- Exactly one terminal notice is sent, and it is last. A cancelled run sends
  the cancel notice and no result notice, because `onPostExecute` is not run
  for a cancelled task. A run that is not cancelled sends success or failure
  (`SessionLogShape`).
- The flag is not written after a failed insert. It stays `true` only because
  that branch runs only when it was `true` (`FlagWrites`).
- Cancellation is polled once more after the loop. A cancel first seen there,
  at poll n, inserts every record and then rolls all of them back.

## Model

| member | source | states |
|---|---|---|
| `Loader.Pieces` | app/src/main/java/services/DataManagerService.java:233 | the pieces between tabs number at least one and contain no tab |
| `Loader.DropTrailingEmpty` | app/src/main/java/services/DataManagerService.java:233 | the result is a prefix of the input, does not end with an empty string, and only empty strings were dropped |
| `Loader.Split` | app/src/main/java/services/DataManagerService.java:233 | `split("\t")`: a tab-free line is its own single field; otherwise the fields are the pieces between tabs up to the last non-empty one, and every piece after them is empty; no field contains a tab |
| `Loader.ParseLine` | app/src/main/java/services/DataManagerService.java:232-238 | a null line or a line without a tab yields no record (the exception); a parsed name and number contain no tab |
| `Loader.ReadLine` | app/src/main/java/services/DataManagerService.java:232 | `readLine` gives line i while lines remain and null after the last one |
| `Loader.ParsedLines` | app/src/main/java/services/DataManagerService.java:232-238 | one parse result per line of the resource |
| `Loader.RecordsFrom` | app/src/main/java/services/DataManagerService.java:231-243 | the records collected from a given line on never outnumber the lines left |
| `Loader.LongestGoodPrefix` | app/src/main/java/services/DataManagerService.java:231-243 | the loaded dataset has at most one record per line |
| `Loader.LoadedRecords` | app/src/main/java/services/DataManagerService.java:228-243 | a resource that cannot be opened yields no record; an opened one yields at most one record per line |
| `Loader.GoodPrefixCharacterised` | app/src/main/java/services/DataManagerService.java:231-243 | record i of the loaded dataset comes from line i, and the line right after the last record, if there is one, does not parse |
| `Loader.ParsedLinesAt` | app/src/main/java/services/DataManagerService.java:232-238 | line k's parse result is the parse of line k |
| `Loader.RecordsFromCharacterised` | app/src/main/java/services/DataManagerService.java:231-243 | the records collected from a line on are the parse results from there, up to the first line that yields no record |
| `Loader.PreLoadRaw` | app/src/main/java/services/DataManagerService.java:224-244 | the reading loop returns exactly the records of the lines before the first malformed line (or of all lines), in order, and nothing when the resource cannot be opened; no error escapes |
| `Loader.JoinPieces` | app/src/main/java/services/DataManagerService.java:233 | joining the pieces of a line with tabs gives the line back |
| `Loader.PiecesJoin` | app/src/main/java/services/DataManagerService.java:233 | tab-free fields joined with tabs cut back into the same pieces |
| `Loader.SplitJoin` | app/src/main/java/services/DataManagerService.java:233 | round trip: tab-free fields joined with tabs split back to the same fields when the last field is non-empty |
| `Loader.ParseJoined` | app/src/main/java/services/DataManagerService.java:233-238 | a line of two or more tab-separated fields yields the record of field 0 (name) and field 1 (number) when some field after field 0 is non-empty, and later fields are ignored; when every field after field 0 is empty it yields no record |
| `Loader.ParsedLineShape` | app/src/main/java/services/DataManagerService.java:233-237 | conversely, a line that parses starts with name, tab, number, and what follows the number begins with a tab |
| `Loader.GoodPrefixUnique` | app/src/main/java/services/DataManagerService.java:231-243 | any record sequence drawn line by line from the input and stopped at a malformed line or at the end is the loaded dataset |
| `Loader.AllLinesParse` | app/src/main/java/services/DataManagerService.java:231-239 | when every line parses, every line yields its record, in order |
| `Loader.MalformedLineTruncates` | app/src/main/java/services/DataManagerService.java:231-243 | a malformed line at k cuts the dataset: nothing from line k or later is loaded |
| `Storage.Helper.constructor` | app/src/main/java/services/DataManagerService.java:150 | a helper over the stored rows, closed, with no transaction |
| `Storage.Helper.Open` | app/src/main/java/services/DataManagerService.java:155 | opening changes no row and no transaction state |
| `Storage.Helper.BeginTransaction` | app/src/main/java/services/DataManagerService.java:164 | a transaction starts with nothing staged and not marked |
| `Storage.Helper.InsertTransaction` | app/src/main/java/services/DataManagerService.java:170 | a successful insert stages exactly the record; a failing one stages nothing; either way the call is recorded; durable rows are untouched |
| `Storage.Helper.SetTransactionSuccess` | app/src/main/java/services/DataManagerService.java:181 | marks the transaction successful and changes no row |
| `Storage.Helper.EndTransaction` | app/src/main/java/services/DataManagerService.java:188-190 | ending a marked transaction appends its staged rows to the durable ones; ending an unmarked one discards them |
| `Storage.Helper.Close` | app/src/main/java/services/DataManagerService.java:192 | closing changes no row |
| `Storage.Preference.constructor` | app/src/main/java/services/DataManagerService.java:151 | a preference holding the given first-run flag |
| `Storage.Preference.GetFirstRun` | app/src/main/java/services/DataManagerService.java:152 | reads the persisted first-run flag |
| `Storage.Preference.SetFirstRun` | app/src/main/java/services/DataManagerService.java:178-183 | writes the flag and records the write |
| `Session.EndingOf` | app/src/main/java/services/DataManagerService.java:166-189 | commit iff no poll up to n sees cancel and no insert fails; cancel iff a poll up to n sees it before any failing insert; failure iff an insert raises before the cancelling poll |
| `Session.Inserted` | app/src/main/java/services/DataManagerService.java:166-174 | the number of records inserted is at most n, the cancelling poll and the failing index; it is n on commit, the cancelling poll on cancel, and the failing index on failure |
| `Session.RunCancelled` | app/src/main/java/services/DataManagerService.java:166-180 | a run ends cancelled iff it is a first run and a poll up to n sees the cancel request before any insert fails |
| `Session.ProgressAt` | app/src/main/java/services/DataManagerService.java:156-172 | the progress after k of n inserts lies within [30, 80] and is 80 after the last record |
| `Session.InsertPercents` | app/src/main/java/services/DataManagerService.java:171-172 | one progress value per inserted record |
| `Session.AsProgress` | app/src/main/java/services/DataManagerService.java:210-213 | each published value reaches the observer as one progress notification, in order |
| `Session.PostEvent` | app/src/main/java/services/DataManagerService.java:216-221 | `onPostExecute` maps true to the success notice and false to the failure notice |
| `Session.ImportLog` | app/src/main/java/services/DataManagerService.java:156-193 | a first run that inserts k records delivers k + 2 background notices: 30 first, progress throughout, and last the cancel notice if cancelled or 100 otherwise |
| `Session.AlreadyImportedLog` | app/src/main/java/services/DataManagerService.java:196-202 | when the data was imported before, the background work delivers 50 then 100 |
| `Session.BackgroundResult` | app/src/main/java/services/DataManagerService.java:149-206 | true when the data was imported before; on a first run, true iff no poll up to n sees a cancel request and no insert fails |
| `Session.BackgroundLog` | app/src/main/java/services/DataManagerService.java:149-208 | inserts + 2 notices on a first run and 2 otherwise, all progress but the last, which is the cancel notice iff the run is cancelled and 100 otherwise |
| `Session.SessionLog` | app/src/main/java/services/DataManagerService.java:143-222 | a run's notices start with the preparation notice and end with the cancel notice when cancelled, otherwise with the result notice |
| `Session.TxOps` | app/src/main/java/services/DataManagerService.java:155-192 | a first run makes k + 4 helper calls on cancel and k + 5 otherwise (the success mark, or the insert call that raised): open and begin first, end and close last |
| `Session.FlagWrites` | app/src/main/java/services/DataManagerService.java:176-189 | the flag is written iff no insert fails, and the value written is true exactly on cancel |
| `Session.ProgressMonotone` | app/src/main/java/services/DataManagerService.java:156-172 | progress after k of n inserts, 30 + 50k/n truncated, lies in [30, 80], grows with k and is 80 after the last record |
| `Session.ImportLogProgresses` | app/src/main/java/services/DataManagerService.java:156-193 | the progress values a first run delivers are 30, one value per inserted record, then 100 unless the run was cancelled |
| `Session.ImportPercentsOrdered` | app/src/main/java/services/DataManagerService.java:156-172 | those values never decrease, with or without the final 100, and the per-insert ones lie within [30, 80] |
| `Session.BackgroundLogCancel` | app/src/main/java/services/DataManagerService.java:149-208 | the background work sends a cancel notice exactly when the run is cancelled |
| `Session.BackgroundLogProgress` | app/src/main/java/services/DataManagerService.java:149-208 | its progress values never decrease; there are inserts + 2 of them on a first run and 2 (50, 100) otherwise, one fewer when cancelled; unless cancelled, the last is 100 |
| `Session.SessionLogShape` | app/src/main/java/services/DataManagerService.java:143-222 | the preparation notice is first; exactly one terminal notice is sent and it is last: the cancel notice iff the run is cancelled, the result notice otherwise; only progress in between, non-decreasing, inserts + 2 values on a first run and 2 otherwise (one fewer when cancelled), ending at 100 unless cancelled |
| `Session.TerminalFrame` | app/src/main/java/services/DataManagerService.java:143-222 | progress notices ended by the cancel notice (cancelled) or by 100 and the result notice (not cancelled), after the preparation notice: the terminal notice is last, everything between is progress, and a cancel notice appears iff cancelled |
| `Session.CancelFrame` | app/src/main/java/services/DataManagerService.java:176-180 | after a cancel, the log is progress up to the cancel notice, which is last |
| `Session.FramedLog` | app/src/main/java/services/DataManagerService.java:143-222 | framing progress notices with the preparation notice and a terminal notice adds no progress value, keeps the middle in place, and the terminal notice is the only non-progress notice after the preparation |
| `Session.Inserts` | app/src/main/java/services/DataManagerService.java:166-170 | one insert call per record, carrying that record, in order |
| `Session.InsertedRecordsOfInserts` | app/src/main/java/services/DataManagerService.java:166-170 | round trip: the records of the insert calls made for a sequence of records are that sequence |
| `Session.TxOpsInserted` | app/src/main/java/services/DataManagerService.java:164-174 | the first k records are inserted, each exactly once and in order, and no later record; the insert that raised adds no row |
| `Session.TxOpsBracketed` | app/src/main/java/services/DataManagerService.java:155-192 | the helper is opened, the transaction begun, always ended and the helper closed; the success mark is set iff the run commits, just before the end; a raising insert call appears iff the run fails, and then it is record k's, just before the end |
| `Coordinator.LoadDataAsync.constructor` | app/src/main/java/services/DataManagerService.java:138-141 | a task bound to the helper and preference, with nothing notified yet |
| `Coordinator.LoadDataAsync.OnPreExecute` | app/src/main/java/services/DataManagerService.java:143-146 | the preparation notice is sent |
| `Coordinator.LoadDataAsync.PublishProgress` | app/src/main/java/services/DataManagerService.java:210-213 | the value reaches the observer as one progress notice unless the task is cancelled, in which case nothing is sent |
| `Coordinator.LoadDataAsync.PollCancel` | app/src/main/java/services/DataManagerService.java:167-168 | `isCancelled()`: poll j sees the request iff j >= cancelAt, and a poll that sees it leaves the task cancelled; nothing is sent |
| `Coordinator.LoadDataAsync.OnPostExecute` | app/src/main/java/services/DataManagerService.java:215-222 | true is reported as success and false as failure |
| `Coordinator.LoadDataAsync.InsertRecords` | app/src/main/java/services/DataManagerService.java:166-174 | the loop stops at the first cancelling poll or failing insert; it inserts exactly `Inserted` records, stages them in order and publishes their progress values; the task is cancelled afterwards iff a poll inside the loop saw the request |
| `Coordinator.LoadDataAsync.InsertNext` | app/src/main/java/services/DataManagerService.java:170-172 | one loop turn: a successful insert stages record i and publishes the progress after i + 1 records; a failing one changes nothing |
| `Coordinator.LoadDataAsync.RunTransaction` | app/src/main/java/services/DataManagerService.java:163-190 | begin, insert loop, post-loop poll (skipped after an exception), settle and end: durable rows gain every record exactly on commit; the helper calls, notices, flag writes, result and cancelled state follow the ending |
| `Coordinator.LoadDataAsync.SettleTransaction` | app/src/main/java/services/DataManagerService.java:176-190 | failure leaves the flag alone; cancel writes it true and sends a cancel notice; otherwise the transaction is marked and the flag written false; the transaction is always ended |
| `Coordinator.LoadDataAsync.ImportFirstRun` | app/src/main/java/services/DataManagerService.java:153-194 | first run: durable rows gain the whole dataset on commit and are unchanged otherwise; the helper calls are `TxOps`, the flag writes `FlagWrites`, the delivered notices `ImportLog`; the result is true iff committed and the task is left cancelled iff the ending is a cancel |
| `Coordinator.LoadDataAsync.DoInBackground` | app/src/main/java/services/DataManagerService.java:148-208 | already imported: storage and flag unchanged, 50 then 100, true, not cancelled; first run: as `ImportFirstRun` |
| `Coordinator.LoadDataAsync.Execute` | app/src/main/java/services/DataManagerService.java:143-222 | a whole run sends `SessionLog`, with no result notice when cancelled, and leaves the rows, helper calls, flag and flag writes as the background work prescribes |
| `Coordinator.ImportTwice` | app/src/main/java/services/DataManagerService.java:152-202 | a clean first run stores the dataset and clears the flag, so a second task on the same database inserts nothing, sends 50 and 100 and succeeds |
| `Coordinator.TwoStudentLoad` | app/src/main/java/services/DataManagerService.java:224-244 | two well-formed lines load as their two records, in order |
| `Coordinator.TwoStudentLog` | app/src/main/java/services/DataManagerService.java:149-222 | a clean first run over two records notifies preparation, 30, 55, 80, 100 and success |
| `Coordinator.TwoStudentCancelLog` | app/src/main/java/services/DataManagerService.java:149-222 | a first run over two records cancelled before the second insert notifies preparation, 30, 55 and the cancel notice, and nothing else |

## Left out

- Service lifecycle (`onCreate`, `onBind`, `onUnbind`, `onRebind`, `onDestroy`) and the Messenger, Message and Bundle transport in `sendMessage` and the callback object. The model's `events` field is what the callback would receive. `cancel(true)` from `onDestroy` and `onUnbind` is the cancel request that `cancelAt` places.
- AsyncTask threading and weak references. A callback or context that has been collected (a null from `get()`) is not modelled.
- The time at which a cancel request arrives, beyond "just before poll `cancelAt`". A request that arrives between a poll and the publish after it would also drop that progress value. A request that arrives after the post-loop poll would leave the run committed while dropping the final 100 and the result notice. Neither case is modelled.
- Cancellation of a run whose data was imported before. The interrupted wait returns false and the result is then not reported. The model polls only on a first run, so that branch always completes.
- Delivery order across threads. Progress is posted to the UI thread while the cancel notice is sent directly from the worker, and a value posted before the cancel is still delivered. The model sends every notice in program order.
- Coordinator.LoadDataAsync.DoInBackground: the two 2-second waits of the already-imported branch are left out, and so is the interrupted wait that returns false. Only the two publishes and the `true` result are modelled.
- Session.ProgressMonotone: progress is exact integer arithmetic, 30 + (50·k)/n truncated. The source adds a `double` increment 50.0/n, and accumulated rounding can make a value one lower (for example 79 instead of 80 on the last record). That difference is not modelled. For an empty dataset, 50.0/0 is never used, because the loop body does not run.
- Session.ProgressAt: the same exact-integer progress as Session.ProgressMonotone, including 80 after the last record; the `double` rounding is not modelled.
- Session.InsertPercents: the per-insert values are those of Session.ProgressAt, so the `double` rounding is not modelled here either.
- Session.ImportPercentsOrdered: states order and bounds of the exact-integer values; the `double` rounding is not modelled.
- The internals of `MahasiswaHelper`, `AppPreference` and `MahasiswaModel` and the raw resource file are not part of this model. The helper is modelled as a begin / mark successful / end transaction, in the way an embedded SQL store commits or discards. The preference is modelled as a boolean, and a record as a pair of strings.
- Only an insert can raise inside the transaction. Exceptions from `open`, `beginTransaction`, `setTransactionSuccess`, `endTransaction` or `close` are not modelled.
- Storage.Helper.InsertTransaction: a failing insert stages nothing. Partial effects of a failed insert are not modelled.
- Loader.PreLoadRaw: a read error in the middle of the resource is not modelled separately. It would be caught like a malformed line and truncate the dataset the same way. A resource that cannot be opened is modelled (`None`).
- Character decoding of the resource and line-terminator handling by `BufferedReader.readLine` are not modelled. The input is already a sequence of lines.
