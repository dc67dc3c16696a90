/**
 * The import task (`LoadDataAsync`): it announces the preparation, then, on
 * the first run only, loads the student dataset and inserts it into the
 * database helper inside one transaction while publishing progress, polls for
 * cancellation before each insert and once after the loop, settles the
 * transaction and the first-run flag, and finally reports its result. Once
 * the task is cancelled, as an asynchronous task it publishes nothing more and
 * its result is never reported.
 *
 * The environment the task cannot see is given as inputs: `raw` is the raw
 * resource (None when it cannot be opened), `cancelAt` is the first
 * cancellation poll that sees a cancel request, and `failAt` is the index of
 * the record whose insert raises an exception, if one does.
 */
module Coordinator {
  import opened Wrappers
  import opened Loader
  import opened Storage
  import opened Session

  class LoadDataAsync {
    const helper: Helper
    const preference: Preference
    /** The notifications received by the bound observer, in order. */
    var events: seq<Event>
    /**
     * Whether the task has been cancelled. It is set once a cancellation poll
     * sees the cancel request; from then on published progress is dropped
     * and the result is not reported.
     */
    var cancelled: bool

    constructor (helper: Helper, preference: Preference)
      ensures this.helper == helper && this.preference == preference
      ensures events == [] && !cancelled
    {
      this.helper := helper;
      this.preference := preference;
      events := [];
      cancelled := false;
    }

    /** Before the background work: the observer is told that loading is being prepared. */
    method OnPreExecute()
      modifies this
      ensures events == old(events) + [PreLoad]
      ensures cancelled == old(cancelled)
    {
      events := events + [PreLoad];
    }

    /** A progress value, forwarded to the observer unless the task has been cancelled. */
    method PublishProgress(percent: int)
      modifies this
      ensures events == old(events) + (if cancelled then [] else [Progress(percent)])
      ensures cancelled == old(cancelled)
    {
      if !cancelled {
        events := events + [Progress(percent)];
      }
    }

    /**
     * A cancellation poll. The cancel request arrives just before poll
     * `cancelAt`, so poll `check` sees it exactly when `check >= cancelAt`,
     * and a poll that sees it leaves the task cancelled.
     */
    method PollCancel(check: nat, cancelAt: nat) returns (seen: bool)
      modifies this
      ensures seen <==> cancelAt <= check
      ensures cancelled == (old(cancelled) || seen)
      ensures events == old(events)
    {
      seen := cancelAt <= check;
      if seen {
        cancelled := true;
      }
    }

    /** After the background work: true is reported as success and false as failure. */
    method OnPostExecute(result: bool)
      modifies this
      ensures events == old(events) + [PostEvent(result)]
      ensures result ==> events == old(events) + [Success]
      ensures !result ==> events == old(events) + [Failed]
      ensures cancelled == old(cancelled)
    {
      if result {
        events := events + [Success];
      } else {
        events := events + [Failed];
      }
    }

    /**
     * The background work. When the data was imported before, it only
     * publishes 50 and 100 and succeeds. On the first run, every outcome is
     * the one the Session functions prescribe: the first
     * Inserted(n, cancelAt, failAt) records are inserted in order, the rows
     * become durable only when the run commits, the flag is written false on
     * commit, true on cancel and not at all after a failed insert, the
     * transaction is always ended and the helper closed, and 100 is
     * published at the end, which reaches the observer unless the run was
     * cancelled.
     */
    method DoInBackground(raw: Option<seq<string>>, cancelAt: nat, failAt: Option<nat>) returns (result: bool)
      requires helper.Valid() && !helper.inTx && !cancelled
      modifies this, helper, preference
      ensures helper.Valid()
      ensures var n := |LoadedRecords(raw)|;
        && result == BackgroundResult(old(preference.firstRun), n, cancelAt, failAt)
        && events == old(events) + BackgroundLog(old(preference.firstRun), n, cancelAt, failAt)
        && cancelled == RunCancelled(old(preference.firstRun), n, cancelAt, failAt)
      ensures !old(preference.firstRun) ==> unchanged(helper) && unchanged(preference)
      ensures old(preference.firstRun) ==>
        var records := LoadedRecords(raw);
        var n := |records|;
        var e := EndingOf(n, cancelAt, failAt);
        && helper.committed == old(helper.committed) + (if e == Committed then records else [])
        && helper.pending == [] && !helper.inTx && !helper.isOpen
        && helper.history == old(helper.history) + TxOps(records, Inserted(n, cancelAt, failAt), e)
        && preference.firstRun == (e != Committed)
        && preference.writes == old(preference.writes) + FlagWrites(e)
    {
      var firstRun := preference.GetFirstRun();
      if firstRun {
        result := ImportFirstRun(raw, cancelAt, failAt);
      } else {
        PublishProgress(50);
        PublishProgress(MAX_PROGRESS);
        result := true;
        assert AsProgress([50, MAX_PROGRESS]) == [Progress(50), Progress(MAX_PROGRESS)];
      }
    }

    /** The first-run branch of the background work. */
    method ImportFirstRun(raw: Option<seq<string>>, cancelAt: nat, failAt: Option<nat>) returns (result: bool)
      requires helper.Valid() && !helper.inTx && preference.firstRun && !cancelled
      modifies this, helper, preference
      ensures helper.Valid()
      ensures var records := LoadedRecords(raw);
        var n := |records|;
        var e := EndingOf(n, cancelAt, failAt);
        && result == (e == Committed)
        && events == old(events) + ImportLog(n, Inserted(n, cancelAt, failAt), e)
        && cancelled == (e == Cancelled)
        && helper.committed == old(helper.committed) + (if e == Committed then records else [])
        && helper.pending == [] && !helper.inTx && !helper.isOpen
        && helper.history == old(helper.history) + TxOps(records, Inserted(n, cancelAt, failAt), e)
        && preference.firstRun == (e != Committed)
        && preference.writes == old(preference.writes) + FlagWrites(e)
    {
      var models := PreLoadRaw(raw);
      var n := |models|;
      ghost var before, history := events, helper.history;
      helper.Open();
      PublishProgress(START_PROGRESS);
      result := RunTransaction(models, cancelAt, failAt);
      helper.Close();
      PublishProgress(MAX_PROGRESS);
      ghost var e := EndingOf(n, cancelAt, failAt);
      ImportLogAppend(before, n, Inserted(n, cancelAt, failAt), e);
      TxOpsAppend(history, models, Inserted(n, cancelAt, failAt), e);
    }

    /**
     * The try block with its handler and its finally clause: begin the
     * transaction, run the insert loop, settle the outcome, end the
     * transaction. On commit the durable rows gain every record.
     */
    method RunTransaction(models: seq<Record>, cancelAt: nat, failAt: Option<nat>) returns (isInsertSuccess: bool)
      requires helper.Valid() && helper.isOpen && !helper.inTx && preference.firstRun && !cancelled
      modifies this, helper, preference
      ensures var n := |models|;
        var e := EndingOf(n, cancelAt, failAt);
        var k := Inserted(n, cancelAt, failAt);
        && isInsertSuccess == (e == Committed)
        && helper.Valid() && helper.isOpen && !helper.inTx && helper.pending == []
        && helper.committed == old(helper.committed) + (if e == Committed then models else [])
        && helper.history == old(helper.history) + [Begin] + Inserts(models[..k]) + SettleOps(models, k, e) + [End]
        && events == old(events) + AsProgress(InsertPercents(n, k)) + (if e == Cancelled then [Cancel] else [])
        && cancelled == (e == Cancelled)
        && preference.firstRun == (e != Committed)
        && preference.writes == old(preference.writes) + FlagWrites(e)
    {
      helper.BeginTransaction();
      var i, checks, threw := InsertRecords(models, cancelAt, failAt);
      var seen := false;
      if !threw {
        // the poll after the loop, which the exception skips
        seen := PollCancel(checks, cancelAt);
      }
      isInsertSuccess := SettleTransaction(threw, seen);
      assert isInsertSuccess ==> models[..i] == models;
    }

    /**
     * The end of the try block and its handlers: after a failed insert the
     * flag is left alone; after a cancel the flag is set and the observer told;
     * otherwise the transaction is marked successful and the flag cleared. In
     * every case the transaction is then ended, which keeps its rows only if
     * it was marked.
     */
    method SettleTransaction(threw: bool, cancelled: bool) returns (isInsertSuccess: bool)
      requires helper.Valid() && helper.inTx && !helper.marked
      requires threw ==> !cancelled
      modifies this, helper, preference
      ensures isInsertSuccess == (!threw && !cancelled)
      ensures helper.Valid() && helper.isOpen && !helper.inTx && helper.pending == []
      ensures helper.committed == old(helper.committed) + (if isInsertSuccess then old(helper.pending) else [])
      ensures helper.history == old(helper.history) + (if isInsertSuccess then [MarkSuccessful] else []) + [End]
      ensures threw ==> preference.firstRun == old(preference.firstRun) && preference.writes == old(preference.writes)
      ensures !threw ==> preference.firstRun == cancelled && preference.writes == old(preference.writes) + [cancelled]
      ensures events == old(events) + (if cancelled then [Cancel] else [])
      ensures this.cancelled == old(this.cancelled)
    {
      if threw {
        // the exception skips the rest of the try block
        isInsertSuccess := false;
      } else if cancelled {
        isInsertSuccess := false;
        preference.SetFirstRun(true);
        events := events + [Cancel];
      } else {
        helper.SetTransactionSuccess();
        isInsertSuccess := true;
        preference.SetFirstRun(false);
      }
      helper.EndTransaction();
    }

    /**
     * The insert loop: poll for cancellation, insert, publish the progress,
     * until the records are exhausted, a poll sees the cancel request or an
     * insert raises. `checks` counts the polls made; the task is left
     * cancelled exactly when one of them saw the cancel request.
     */
    method InsertRecords(models: seq<Record>, cancelAt: nat, failAt: Option<nat>) returns (i: nat, checks: nat, threw: bool)
      requires helper.Valid() && helper.inTx && !helper.marked && helper.pending == [] && !cancelled
      modifies this, helper
      ensures var n := |models|;
        var e := EndingOf(n, cancelAt, failAt);
        && i == Inserted(n, cancelAt, failAt)
        && (threw <==> e == InsertFailed)
        && (!threw ==> (cancelAt <= checks <==> e == Cancelled))
        && (cancelled <==> e == Cancelled && cancelAt < n)
      ensures helper.Valid() && helper.inTx && !helper.marked
      ensures helper.pending == models[..i] && helper.committed == old(helper.committed)
      ensures !threw ==> helper.history == old(helper.history) + Inserts(models[..i])
      ensures threw ==> helper.history == old(helper.history) + Inserts(models[..i]) + [InsertRaised(models[i])]
      ensures events == old(events) + AsProgress(InsertPercents(|models|, i))
    {
      var n := |models|;
      i, checks, threw := 0, 0, false;
      while i < n
        invariant i <= n && checks == i && i <= cancelAt
        invariant failAt.Some? ==> failAt.value >= i
        invariant helper.Valid() && helper.inTx && !helper.marked
        invariant helper.pending == models[..i]
        invariant helper.committed == old(helper.committed)
        invariant helper.history == old(helper.history) + Inserts(models[..i])
        invariant events == old(events) + AsProgress(InsertPercents(n, i))
        invariant !cancelled
      {
        var seen := PollCancel(checks, cancelAt);
        checks := checks + 1;
        if seen {
          assert i == cancelAt && i < n;
          assert Inserted(n, cancelAt, failAt) == i && EndingOf(n, cancelAt, failAt) == Cancelled;
          break;
        }
        var ok := InsertNext(models, i, failAt == Some(i), old(helper.history), old(events));
        if !ok {
          threw := true;
          assert Inserted(n, cancelAt, failAt) == i && EndingOf(n, cancelAt, failAt) == InsertFailed;
          break;
        }
        i := i + 1;
      }
      assert threw || i == n || i == cancelAt;
    }

    /**
     * One turn of the insert loop after a poll that saw no cancel request:
     * insert record i and, if that succeeds, publish the progress after i + 1
     * records. `history` and `log` are the helper calls and notifications from
     * before the loop.
     */
    method InsertNext(models: seq<Record>, i: nat, fails: bool, ghost history: seq<Op>, ghost log: seq<Event>)
      returns (ok: bool)
      requires i < |models|
      requires helper.Valid() && helper.inTx && !helper.marked
      requires helper.pending == models[..i]
      requires helper.history == history + Inserts(models[..i])
      requires events == log + AsProgress(InsertPercents(|models|, i))
      requires !cancelled
      modifies this, helper
      ensures ok == !fails
      ensures !cancelled
      ensures helper.Valid() && helper.inTx && !helper.marked
      ensures helper.committed == old(helper.committed)
      ensures var j := if ok then i + 1 else i;
        && helper.pending == models[..j]
        && helper.history == history + Inserts(models[..j]) + (if ok then [] else [InsertRaised(models[i])])
        && events == log + AsProgress(InsertPercents(|models|, j))
    {
      ok := helper.InsertTransaction(models[i], fails);
      if ok {
        var n := |models|;
        assert models[..i + 1] == models[..i] + [models[i]];
        InsertsSnoc(models[..i], models[i]);
        SnocAssoc(history, Inserts(models[..i]), Insert(models[i]));
        InsertPercentsProgress(n, i);
        SnocAssoc(log, AsProgress(InsertPercents(n, i)), Progress(ProgressAt(n, i + 1)));
        PublishProgress(ProgressAt(n, i + 1));
      }
    }

    /**
     * One execution of the task: preparation notice, background work, and
     * the result notice, which a cancelled task does not send: it runs
     * `onCancelled` instead, which this task leaves as it is.
     */
    method Execute(raw: Option<seq<string>>, cancelAt: nat, failAt: Option<nat>) returns (result: bool)
      requires helper.Valid() && !helper.inTx && !cancelled
      modifies this, helper, preference
      ensures helper.Valid()
      ensures var n := |LoadedRecords(raw)|;
        && result == BackgroundResult(old(preference.firstRun), n, cancelAt, failAt)
        && events == old(events) + SessionLog(old(preference.firstRun), n, cancelAt, failAt)
        && cancelled == RunCancelled(old(preference.firstRun), n, cancelAt, failAt)
      ensures old(preference.firstRun) ==>
        var records := LoadedRecords(raw);
        var n := |records|;
        var e := EndingOf(n, cancelAt, failAt);
        && helper.committed == old(helper.committed) + (if e == Committed then records else [])
        && helper.pending == [] && !helper.inTx && !helper.isOpen
        && helper.history == old(helper.history) + TxOps(records, Inserted(n, cancelAt, failAt), e)
        && preference.firstRun == (e != Committed)
        && preference.writes == old(preference.writes) + FlagWrites(e)
      ensures !old(preference.firstRun) ==> unchanged(helper) && unchanged(preference)
    {
      ghost var log, firstRun, n := events, preference.firstRun, |LoadedRecords(raw)|;
      OnPreExecute();
      result := DoInBackground(raw, cancelAt, failAt);
      ghost var bg := BackgroundLog(firstRun, n, cancelAt, failAt);
      if !cancelled {
        OnPostExecute(result);
        AppendAssoc(log, [PreLoad], bg, [PostEvent(result)]);
      } else {
        AppendAssoc(log, [PreLoad], bg, []);
      }
    }
  }

  /**
   * Two executions of the task against the same database and preference, the
   * first on a first run without cancellation or failure: the first stores the
   * whole dataset and clears the flag, so the second takes the already-imported
   * branch, inserts nothing and also succeeds.
   */
  method ImportTwice(raw: Option<seq<string>>, stored: seq<Record>, cancelAt: nat)
    returns (first: bool, second: bool, rows: seq<Record>, secondLog: seq<Event>)
    requires cancelAt > |LoadedRecords(raw)|
    ensures first && second
    ensures rows == stored + LoadedRecords(raw)
    ensures secondLog == [PreLoad, Progress(50), Progress(MAX_PROGRESS), Success]
  {
    var helper := new Helper(stored);
    var preference := new Preference(true);
    var task := new LoadDataAsync(helper, preference);
    first := task.Execute(raw, cancelAt, None);
    var again := new LoadDataAsync(helper, preference);
    second := again.Execute(raw, cancelAt, None);
    rows := helper.committed;
    secondLog := again.events;
    assert AsProgress([50, MAX_PROGRESS]) == [Progress(50), Progress(MAX_PROGRESS)];
  }

  /** A dataset of two well-formed lines loads both students, in order. */
  lemma TwoStudentLoad(name1: string, nim1: string, name2: string, nim2: string)
    requires TAB !in name1 && TAB !in nim1 && nim1 != ""
    requires TAB !in name2 && TAB !in nim2 && nim2 != ""
    ensures LoadedRecords(Some([name1 + [TAB] + nim1, name2 + [TAB] + nim2]))
      == [Record(name1, nim1), Record(name2, nim2)]
  {
    assert [name1, nim1][1] != "" && [name2, nim2][1] != "";
    ParseJoined([name1, nim1]);
    ParseJoined([name2, nim2]);
    AllLinesParse([name1 + [TAB] + nim1, name2 + [TAB] + nim2]);
  }

  /**
   * A first run over two records with no cancellation and no failure: the
   * observer sees the preparation notice, 30, 55, 80, 100 and success.
   */
  lemma TwoStudentLog()
    ensures SessionLog(true, 2, 3, None)
      == [PreLoad, Progress(30), Progress(55), Progress(80), Progress(100), Success]
  {
    assert InsertPercents(2, 2) == [55, 80];
    AsProgressCons(30, [55, 80]);
    assert AsProgress([55, 80]) == [Progress(55), Progress(80)];
  }

  /**
   * A first run over two records whose cancel request is seen by the poll
   * before the second insert: the observer sees the preparation notice, 30,
   * 55 and the cancel notice, and neither 100 nor a result notice.
   */
  lemma TwoStudentCancelLog()
    ensures SessionLog(true, 2, 1, None) == [PreLoad, Progress(30), Progress(55), Cancel]
  {
    assert InsertPercents(2, 1) == [55];
    AsProgressCons(30, [55]);
  }
}
