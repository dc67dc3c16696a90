/**
 * What one run of the import task is expected to do, as functions of its
 * inputs: the number of loaded records n, whether this is the first run, the
 * poll at which cancellation is first seen and the insert that fails (if any).
 * The coordinator's methods are proved to produce exactly these outcomes; the
 * lemmas below state what the outcomes guarantee.
 *
 * Cancellation polls are numbered 0..n: poll j (j < n) comes before the insert
 * of record j and poll n is the one after the insert loop. A cancel request is
 * never withdrawn, so every poll from `cancelAt` on sees it. From the moment
 * the task is cancelled, the progress it publishes is dropped and the result
 * notice is never sent; the cancel notice goes to the observer directly.
 */
module Session {
  import opened Wrappers
  import opened Loader
  import opened Storage

  /** The notifications the task sends to the bound observer. */
  datatype Event = PreLoad | Progress(percent: int) | Cancel | Success | Failed

  /** How the transactional phase of a first run ends. */
  datatype Ending = Committed | Cancelled | InsertFailed

  const START_PROGRESS: int := 30
  const MAX_INSERT_PROGRESS: int := 80
  const MAX_PROGRESS: int := 100

  /** The outcome of the insert phase over n records. */
  function EndingOf(n: nat, cancelAt: nat, failAt: Option<nat>): (e: Ending)
    ensures e == Committed <==> n < cancelAt && (failAt.None? || failAt.value >= n)
    ensures e == Cancelled <==> cancelAt <= n && (failAt.None? || failAt.value >= cancelAt)
    ensures e == InsertFailed <==> failAt.Some? && failAt.value < n && failAt.value < cancelAt
  {
    if failAt.Some? && failAt.value < n && failAt.value < cancelAt then InsertFailed
    else if cancelAt <= n then Cancelled
    else Committed
  }

  /** How many records are inserted before the insert phase stops. */
  function Inserted(n: nat, cancelAt: nat, failAt: Option<nat>): (k: nat)
    ensures k <= n && k <= cancelAt
    ensures failAt.Some? ==> k <= failAt.value
    ensures EndingOf(n, cancelAt, failAt) == Committed ==> k == n
    ensures EndingOf(n, cancelAt, failAt) == Cancelled ==> k == cancelAt
    ensures EndingOf(n, cancelAt, failAt) == InsertFailed ==> k == failAt.value && k < n
  {
    var reach := if cancelAt < n then cancelAt else n;
    if failAt.Some? && failAt.value < reach then failAt.value else reach
  }

  /**
   * Whether the task ends up cancelled: only a first run polls, and it is
   * cancelled when a poll sees the request before any insert has failed.
   */
  function RunCancelled(firstRun: bool, n: nat, cancelAt: nat, failAt: Option<nat>): (c: bool)
    ensures c <==> firstRun && cancelAt <= n && (failAt.None? || failAt.value >= cancelAt)
  {
    firstRun && EndingOf(n, cancelAt, failAt) == Cancelled
  }

  /** The progress shown after k of n inserts: 30 plus k fiftieths of n, truncated. */
  function ProgressAt(n: nat, k: nat): (p: int)
    requires 0 < n && k <= n
    ensures START_PROGRESS <= p <= MAX_INSERT_PROGRESS
    ensures k == n ==> p == MAX_INSERT_PROGRESS
  {
    DivMonotone(50 * k, 50 * n, n);
    assert (50 * n) / n == 50;
    START_PROGRESS + ((MAX_INSERT_PROGRESS - START_PROGRESS) * k) / n
  }

  /** The progress values published after each of the first k inserts. */
  function InsertPercents(n: nat, k: nat): (ps: seq<int>)
    requires k <= n
    ensures |ps| == k
    decreases k
  {
    if k == 0 then [] else InsertPercents(n, k - 1) + [ProgressAt(n, k)]
  }

  /** Progress notifications carrying the given values. */
  function AsProgress(ps: seq<int>): (evs: seq<Event>)
    ensures |evs| == |ps|
    ensures forall i :: 0 <= i < |ps| ==> evs[i] == Progress(ps[i])
    decreases |ps|
  {
    if ps == [] then [] else AsProgress(ps[..|ps| - 1]) + [Progress(ps[|ps| - 1])]
  }

  /** The values of the progress notifications of a log, in order. */
  function Progresses(evs: seq<Event>): (ps: seq<int>)
    decreases |evs|
  {
    if evs == [] then []
    else
      var last := evs[|evs| - 1];
      Progresses(evs[..|evs| - 1]) + (if last.Progress? then [last.percent] else [])
  }

  ghost predicate NonDecreasing(s: seq<int>)
  {
    forall i, j :: 0 <= i <= j < |s| ==> s[i] <= s[j]
  }

  /**
   * The background notifications of a first run that inserts k records: 30,
   * one value per insert, then the cancel notice if the run was cancelled
   * (the 100 published after it is dropped) or 100 otherwise.
   */
  function ImportLog(n: nat, k: nat, e: Ending): (log: seq<Event>)
    requires k <= n
    ensures |log| == k + 2
    ensures log[0] == Progress(START_PROGRESS)
    ensures forall i :: 0 <= i < |log| - 1 ==> log[i].Progress?
    ensures log[|log| - 1] == (if e == Cancelled then Cancel else Progress(MAX_PROGRESS))
  {
    AsProgress([START_PROGRESS] + InsertPercents(n, k))
    + (if e == Cancelled then [Cancel] else [Progress(MAX_PROGRESS)])
  }

  /** The background notifications when the data was imported before: 50, then 100. */
  function AlreadyImportedLog(): (log: seq<Event>)
    ensures log == [Progress(50), Progress(MAX_PROGRESS)]
  {
    AsProgress([50, MAX_PROGRESS])
  }

  /** The value the background work returns: true unless a first run fails to commit. */
  function BackgroundResult(firstRun: bool, n: nat, cancelAt: nat, failAt: Option<nat>): (b: bool)
    ensures !firstRun ==> b
    ensures firstRun ==> (b <==> n < cancelAt && (failAt.None? || failAt.value >= n))
  {
    !firstRun || EndingOf(n, cancelAt, failAt) == Committed
  }

  /**
   * The notifications the background work delivers: progress only, except
   * that a cancelled run ends with the cancel notice instead of 100.
   */
  function BackgroundLog(firstRun: bool, n: nat, cancelAt: nat, failAt: Option<nat>): (bg: seq<Event>)
    ensures |bg| == (if firstRun then Inserted(n, cancelAt, failAt) + 2 else 2)
    ensures forall i :: 0 <= i < |bg| - 1 ==> bg[i].Progress?
    ensures bg[|bg| - 1] == (if RunCancelled(firstRun, n, cancelAt, failAt) then Cancel else Progress(MAX_PROGRESS))
  {
    if firstRun then ImportLog(n, Inserted(n, cancelAt, failAt), EndingOf(n, cancelAt, failAt))
    else AlreadyImportedLog()
  }

  /** The notification that reports the result of the background work to the observer. */
  function PostEvent(result: bool): (e: Event)
    ensures e == Success || e == Failed
    ensures result <==> e == Success
  {
    if result then Success else Failed
  }

  /**
   * The notifications of a whole run: preparation, background work, and the
   * result notice, which a cancelled task never sends.
   */
  function SessionLog(firstRun: bool, n: nat, cancelAt: nat, failAt: Option<nat>): (log: seq<Event>)
    ensures 3 <= |log| && log[0] == PreLoad
    ensures RunCancelled(firstRun, n, cancelAt, failAt) ==> log[|log| - 1] == Cancel
    ensures !RunCancelled(firstRun, n, cancelAt, failAt)
      ==> log[|log| - 1] == PostEvent(BackgroundResult(firstRun, n, cancelAt, failAt))
  {
    [PreLoad] + BackgroundLog(firstRun, n, cancelAt, failAt)
    + (if RunCancelled(firstRun, n, cancelAt, failAt) then [] else [PostEvent(BackgroundResult(firstRun, n, cancelAt, failAt))])
  }

  /** Insert calls for the given records, in order. */
  function Inserts(rs: seq<Record>): (ops: seq<Op>)
    ensures |ops| == |rs|
    ensures forall i :: 0 <= i < |rs| ==> ops[i] == Insert(rs[i])
    decreases |rs|
  {
    if rs == [] then [] else Inserts(rs[..|rs| - 1]) + [Insert(rs[|rs| - 1])]
  }

  /** The records of the insert calls among the given helper calls, in order. */
  function InsertedRecords(ops: seq<Op>): (rs: seq<Record>)
    decreases |ops|
  {
    if ops == [] then []
    else
      var last := ops[|ops| - 1];
      InsertedRecords(ops[..|ops| - 1]) + (if last.Insert? then [last.record] else [])
  }

  /**
   * The helper call between the successful inserts and the end of the
   * transaction: the insert of record k that raised, the success mark on
   * commit, and none on cancel.
   */
  function SettleOps(records: seq<Record>, k: nat, e: Ending): seq<Op>
    requires k <= |records| && (e == InsertFailed ==> k < |records|)
  {
    match e
    case Committed => [MarkSuccessful]
    case Cancelled => []
    case InsertFailed => [InsertRaised(records[k])]
  }

  /**
   * The helper calls of a first run that inserts the first k records and
   * ends with `e`: open, begin, the successful inserts, then the insert that
   * raised or the success mark, end, close.
   */
  function TxOps(records: seq<Record>, k: nat, e: Ending): (ops: seq<Op>)
    requires k <= |records| && (e == InsertFailed ==> k < |records|)
    ensures |ops| == k + (if e == Cancelled then 4 else 5)
    ensures ops[0] == Op.Open && ops[1] == Begin
    ensures ops[|ops| - 2] == End && ops[|ops| - 1] == Op.Close
  {
    [Op.Open, Begin] + Inserts(records[..k]) + SettleOps(records, k, e) + [End, Op.Close]
  }

  /**
   * The values written to the first-run flag: false on commit, true on
   * cancel, nothing after a failed insert.
   */
  function FlagWrites(e: Ending): (w: seq<bool>)
    ensures w != [] <==> e != InsertFailed
    ensures w != [] ==> w == [e == Cancelled]
  {
    match e
    case Committed => [false]
    case Cancelled => [true]
    case InsertFailed => []
  }

  lemma SnocAssoc<T>(a: seq<T>, b: seq<T>, x: T)
    ensures a + b + [x] == a + (b + [x])
  {
  }

  lemma AppendAssoc<T>(a: seq<T>, b: seq<T>, c: seq<T>, d: seq<T>)
    ensures a + (b + c + d) == a + b + c + d
  {
  }

  // ---------------------------------------------------------------------------
  // Progress

  /** Progress during the insert phase stays within [30, 80], grows with k and reaches 80 on the last record. */
  lemma ProgressMonotone(n: nat, j: nat, k: nat)
    requires 0 < n && j <= k <= n
    ensures START_PROGRESS <= ProgressAt(n, j) <= ProgressAt(n, k) <= MAX_INSERT_PROGRESS
    ensures ProgressAt(n, n) == MAX_INSERT_PROGRESS
  {
    var a, b := 50 * j, 50 * k;
    assert a <= b <= 50 * n;
    DivMonotone(a, b, n);
    DivMonotone(b, 50 * n, n);
    assert (50 * n) / n == 50;
  }

  /** Integer division by a positive number is monotone. */
  lemma DivMonotone(a: nat, b: nat, n: nat)
    requires 0 < n && a <= b
    ensures 0 <= a / n <= b / n
  {
    var q, q' := a / n, b / n;
    assert q * n <= a <= b;
    assert b < (q' + 1) * n;
    assert q * n < (q' + 1) * n;
  }

  lemma {:induction false} InsertPercentsAt(n: nat, k: nat, i: nat)
    requires k <= n && i < k
    ensures InsertPercents(n, k)[i] == ProgressAt(n, i + 1)
    decreases k
  {
    if i < k - 1 {
      InsertPercentsAt(n, k - 1, i);
    }
  }

  lemma AsProgressSnoc(ps: seq<int>, p: int)
    ensures AsProgress(ps + [p]) == AsProgress(ps) + [Progress(p)]
  {
    assert (ps + [p])[..|ps|] == ps;
  }

  lemma AsProgressCons(p: int, ps: seq<int>)
    ensures AsProgress([p] + ps) == [Progress(p)] + AsProgress(ps)
  {
    var l, r := AsProgress([p] + ps), [Progress(p)] + AsProgress(ps);
    assert |l| == |r|;
    forall i | 0 <= i < |l|
      ensures l[i] == r[i]
    {
      if i > 0 {
        assert ([p] + ps)[i] == ps[i - 1];
      }
    }
  }

  /**
   * A log extended by a first run's background log, one notification at a
   * time, as the task delivers them: 30, the insert progress, the cancel
   * notice if cancelled, and 100 unless cancelled.
   */
  lemma ImportLogAppend(log: seq<Event>, n: nat, k: nat, e: Ending)
    requires k <= n
    ensures log + ImportLog(n, k, e)
      == log + [Progress(START_PROGRESS)] + AsProgress(InsertPercents(n, k))
         + (if e == Cancelled then [Cancel] else [])
         + (if e == Cancelled then [] else [Progress(MAX_PROGRESS)])
  {
    var head := AsProgress(InsertPercents(n, k));
    var cancel: seq<Event> := if e == Cancelled then [Cancel] else [];
    var done: seq<Event> := if e == Cancelled then [] else [Progress(MAX_PROGRESS)];
    ImportLogParts(n, k, e);
    var x := log + [Progress(START_PROGRESS)] + head;
    AppendAssoc(log, [Progress(START_PROGRESS)], head, cancel + done);
    assert x + (cancel + done) == x + cancel + done;
  }

  /** A first run's background log, cut into the notices before and after the insert progress. */
  lemma ImportLogParts(n: nat, k: nat, e: Ending)
    requires k <= n
    ensures ImportLog(n, k, e)
      == [Progress(START_PROGRESS)] + AsProgress(InsertPercents(n, k))
         + ((if e == Cancelled then [Cancel] else []) + (if e == Cancelled then [] else [Progress(MAX_PROGRESS)]))
  {
    AsProgressCons(START_PROGRESS, InsertPercents(n, k));
  }

  lemma InsertPercentsProgress(n: nat, k: nat)
    requires k < n
    ensures AsProgress(InsertPercents(n, k + 1)) == AsProgress(InsertPercents(n, k)) + [Progress(ProgressAt(n, k + 1))]
  {
    AsProgressSnoc(InsertPercents(n, k), ProgressAt(n, k + 1));
  }

  lemma InsertsSnoc(rs: seq<Record>, r: Record)
    ensures Inserts(rs + [r]) == Inserts(rs) + [Insert(r)]
  {
    assert (rs + [r])[..|rs|] == rs;
  }

  lemma {:induction false} ProgressesConcat(a: seq<Event>, b: seq<Event>)
    ensures Progresses(a + b) == Progresses(a) + Progresses(b)
    decreases |b|
  {
    if b == [] {
      assert a + b == a;
    } else {
      var b' := b[..|b| - 1];
      assert (a + b)[..|a + b| - 1] == a + b';
      ProgressesConcat(a, b');
    }
  }

  lemma {:induction false} ProgressesOfProgress(ps: seq<int>)
    ensures Progresses(AsProgress(ps)) == ps
    decreases |ps|
  {
    if ps != [] {
      var init := ps[..|ps| - 1];
      ProgressesOfProgress(init);
      assert AsProgress(ps)[..|ps| - 1] == AsProgress(init);
      assert init + [ps[|ps| - 1]] == ps;
    }
  }

  /**
   * The progress values a first run delivers: 30, one value per inserted
   * record, then 100 unless the run was cancelled.
   */
  lemma ImportLogProgresses(n: nat, k: nat, e: Ending)
    requires k <= n
    ensures Progresses(ImportLog(n, k, e))
      == [START_PROGRESS] + InsertPercents(n, k) + (if e == Cancelled then [] else [MAX_PROGRESS])
  {
    var body := [START_PROGRESS] + InsertPercents(n, k);
    var head := AsProgress(body);
    var tail := if e == Cancelled then [Cancel] else [Progress(MAX_PROGRESS)];
    ProgressesConcat(head, tail);
    ProgressesOfProgress(body);
    assert tail[..0] == [];
  }

  /** A prefix of a non-decreasing sequence is non-decreasing. */
  lemma NonDecreasingPrefix(s: seq<int>, t: seq<int>)
    requires NonDecreasing(s + t)
    ensures NonDecreasing(s)
  {
    forall i, j | 0 <= i <= j < |s|
      ensures s[i] <= s[j]
    {
      assert (s + t)[i] == s[i] && (s + t)[j] == s[j];
    }
  }

  /**
   * Those values never decrease, whether or not 100 follows, and the ones
   * published during the inserts lie within [30, 80].
   */
  lemma ImportPercentsOrdered(n: nat, k: nat)
    requires k <= n
    ensures NonDecreasing([START_PROGRESS] + InsertPercents(n, k) + [MAX_PROGRESS])
    ensures NonDecreasing([START_PROGRESS] + InsertPercents(n, k))
    ensures forall i :: 0 <= i < k ==> START_PROGRESS <= InsertPercents(n, k)[i] <= MAX_INSERT_PROGRESS
  {
    var ins := InsertPercents(n, k);
    forall i | 0 <= i < k
      ensures START_PROGRESS <= ins[i] <= MAX_INSERT_PROGRESS
    {
      InsertPercentsAt(n, k, i);
    }
    var ps := [START_PROGRESS] + ins + [MAX_PROGRESS];
    assert forall i :: 0 < i <= k ==> ps[i] == ins[i - 1];
    forall i, j | 0 <= i <= j < |ps|
      ensures ps[i] <= ps[j]
    {
      if 0 < i && j <= k {
        InsertPercentsAt(n, k, i - 1);
        InsertPercentsAt(n, k, j - 1);
        ProgressMonotone(n, i, j);
      }
    }
    NonDecreasingPrefix([START_PROGRESS] + ins, [MAX_PROGRESS]);
  }

  /** The background log holds a cancel notice exactly when the run is cancelled. */
  lemma BackgroundLogCancel(firstRun: bool, n: nat, cancelAt: nat, failAt: Option<nat>)
    ensures Cancel in BackgroundLog(firstRun, n, cancelAt, failAt) <==> RunCancelled(firstRun, n, cancelAt, failAt)
  {
    var bg := BackgroundLog(firstRun, n, cancelAt, failAt);
    if Cancel in bg {
      var i :| 0 <= i < |bg| && bg[i] == Cancel;
      assert i == |bg| - 1;
    }
  }

  /**
   * The background log's progress values never decrease and number k + 2 on
   * a first run and 2 otherwise, one fewer when the run is cancelled; unless
   * it is cancelled, the last of them is 100.
   */
  lemma BackgroundLogProgress(firstRun: bool, n: nat, cancelAt: nat, failAt: Option<nat>)
    ensures var ps := Progresses(BackgroundLog(firstRun, n, cancelAt, failAt));
      && NonDecreasing(ps)
      && |ps| == (if firstRun then Inserted(n, cancelAt, failAt) + 2 else 2)
                 - (if RunCancelled(firstRun, n, cancelAt, failAt) then 1 else 0)
      && (!RunCancelled(firstRun, n, cancelAt, failAt) ==> ps[|ps| - 1] == MAX_PROGRESS)
  {
    if firstRun {
      var k, e := Inserted(n, cancelAt, failAt), EndingOf(n, cancelAt, failAt);
      ImportLogProgresses(n, k, e);
      ImportPercentsOrdered(n, k);
    } else {
      ProgressesOfProgress([50, MAX_PROGRESS]);
    }
  }

  /**
   * The shape of the whole notification log of a run: the preparation notice
   * comes first; exactly one terminal notice comes last and nowhere else (the
   * cancel notice when the run is cancelled, the result notice otherwise);
   * everything between is progress, which never decreases, numbers k + 2 on a
   * first run and 2 otherwise (one fewer when cancelled), and ends at 100
   * unless the run is cancelled.
   */
  lemma SessionLogShape(firstRun: bool, n: nat, cancelAt: nat, failAt: Option<nat>)
    ensures var log := SessionLog(firstRun, n, cancelAt, failAt);
      var cancelled := RunCancelled(firstRun, n, cancelAt, failAt);
      && log[0] == PreLoad
      && log[|log| - 1] == (if cancelled then Cancel else PostEvent(BackgroundResult(firstRun, n, cancelAt, failAt)))
      && (forall i :: 0 < i < |log| - 1 ==> log[i].Progress?)
      && NonDecreasing(Progresses(log))
      && |Progresses(log)| == (if firstRun then Inserted(n, cancelAt, failAt) + 2 else 2) - (if cancelled then 1 else 0)
      && (!cancelled ==> Progresses(log)[|Progresses(log)| - 1] == MAX_PROGRESS)
      && (Cancel in log <==> cancelled)
  {
    var bg := BackgroundLog(firstRun, n, cancelAt, failAt);
    var post := PostEvent(BackgroundResult(firstRun, n, cancelAt, failAt));
    BackgroundLogProgress(firstRun, n, cancelAt, failAt);
    TerminalFrame(bg, RunCancelled(firstRun, n, cancelAt, failAt), post);
  }

  /**
   * A background log of progress notices that ends with the cancel notice
   * when cancelled, framed by the preparation notice and, unless cancelled,
   * the result notice: the terminal notice is the only one of its kind.
   */
  lemma TerminalFrame(bg: seq<Event>, cancelled: bool, post: Event)
    requires 1 <= |bg| && forall i :: 0 <= i < |bg| - 1 ==> bg[i].Progress?
    requires bg[|bg| - 1] == (if cancelled then Cancel else Progress(MAX_PROGRESS))
    requires post == Success || post == Failed
    ensures var log := [PreLoad] + bg + (if cancelled then [] else [post]);
      && log[0] == PreLoad
      && log[|log| - 1] == (if cancelled then Cancel else post)
      && (forall i :: 0 < i < |log| - 1 ==> log[i].Progress?)
      && Progresses(log) == Progresses(bg)
      && (Cancel in log <==> cancelled)
  {
    if cancelled {
      CancelFrame(bg);
      assert [PreLoad] + bg + [] == [PreLoad] + bg;
    } else {
      FramedLog(bg, post);
    }
  }

  /** A log of progress notices ended by the cancel notice, after the preparation notice. */
  lemma CancelFrame(bg: seq<Event>)
    requires 1 <= |bg| && forall i :: 0 <= i < |bg| - 1 ==> bg[i].Progress?
    requires bg[|bg| - 1] == Cancel
    ensures var log := [PreLoad] + bg;
      && (forall i :: 0 < i < |log| - 1 ==> log[i].Progress?)
      && Progresses(log) == Progresses(bg)
      && Cancel in log
  {
    var mid := bg[..|bg| - 1];
    assert bg == mid + [Cancel];
    ProgressesConcat(mid, [Cancel]);
    assert [Cancel][..0] == [];
    assert Progresses([Cancel]) == [];
    FramedLog(mid, Cancel);
    assert [PreLoad] + bg == [PreLoad] + mid + [Cancel];
  }

  /**
   * A run of progress notices framed by the preparation notice and a
   * terminal notice: the terminal notice is the only one of its kind and the
   * progress values are those of the middle.
   */
  lemma FramedLog(mid: seq<Event>, last: Event)
    requires forall i :: 0 <= i < |mid| ==> mid[i].Progress?
    requires !last.Progress? && last != PreLoad
    ensures var log := [PreLoad] + mid + [last];
      && |log| == |mid| + 2
      && (forall i :: 0 < i < |log| - 1 ==> log[i] == mid[i - 1])
      && Progresses(log) == Progresses(mid)
      && (forall ev: Event :: !ev.Progress? && ev != PreLoad ==> (ev in log <==> ev == last))
  {
    var log := [PreLoad] + mid + [last];
    ProgressesConcat([PreLoad] + mid, [last]);
    ProgressesConcat([PreLoad], mid);
    assert [PreLoad][..0] == [];
    assert [last][..0] == [];
    forall ev: Event | !ev.Progress? && ev != PreLoad
      ensures ev in log <==> ev == last
    {
      if ev in log {
        var i :| 0 <= i < |log| && log[i] == ev;
        assert i == |log| - 1;
      }
      assert log[|log| - 1] == last;
    }
  }

  // ---------------------------------------------------------------------------
  // Storage calls

  lemma {:induction false} InsertedRecordsConcat(a: seq<Op>, b: seq<Op>)
    ensures InsertedRecords(a + b) == InsertedRecords(a) + InsertedRecords(b)
    decreases |b|
  {
    if b == [] {
      assert a + b == a;
    } else {
      var b' := b[..|b| - 1];
      assert (a + b)[..|a + b| - 1] == a + b';
      InsertedRecordsConcat(a, b');
    }
  }

  lemma {:induction false} InsertedRecordsNone(ops: seq<Op>)
    requires forall i :: 0 <= i < |ops| ==> !ops[i].Insert?
    ensures InsertedRecords(ops) == []
    decreases |ops|
  {
    if ops != [] {
      InsertedRecordsNone(ops[..|ops| - 1]);
    }
  }

  lemma {:induction false} InsertedRecordsOfInserts(rs: seq<Record>)
    ensures InsertedRecords(Inserts(rs)) == rs
    decreases |rs|
  {
    if rs != [] {
      var init := rs[..|rs| - 1];
      InsertedRecordsOfInserts(init);
      assert Inserts(rs)[..|rs| - 1] == Inserts(init);
      assert init + [rs[|rs| - 1]] == rs;
    }
  }

  /** A call history extended by a first run's storage calls, one call at a time. */
  lemma TxOpsAppend(history: seq<Op>, records: seq<Record>, k: nat, e: Ending)
    requires k <= |records| && (e == InsertFailed ==> k < |records|)
    ensures history + TxOps(records, k, e)
      == history + [Op.Open] + [Begin] + Inserts(records[..k])
         + SettleOps(records, k, e) + [End] + [Op.Close]
  {
  }

  /**
   * The storage calls of a first run insert exactly the first k records,
   * each once and in order; the insert that raised adds no row.
   */
  lemma TxOpsInserted(records: seq<Record>, k: nat, e: Ending)
    requires k <= |records| && (e == InsertFailed ==> k < |records|)
    ensures InsertedRecords(TxOps(records, k, e)) == records[..k]
  {
    var ins := Inserts(records[..k]);
    var open: seq<Op> := [Op.Open, Begin];
    var settle := SettleOps(records, k, e);
    var close: seq<Op> := [End, Op.Close];
    var upToIns := open + ins;
    var upToSettle := upToIns + settle;
    assert TxOps(records, k, e) == upToSettle + close;
    InsertedRecordsNone(open);
    InsertedRecordsNone(settle);
    InsertedRecordsNone(close);
    InsertedRecordsOfInserts(records[..k]);
    InsertedRecordsConcat(open, ins);
    assert InsertedRecords(upToIns) == records[..k];
    InsertedRecordsConcat(upToIns, settle);
    assert InsertedRecords(upToSettle) == records[..k];
    InsertedRecordsConcat(upToSettle, close);
  }

  /**
   * The transaction of a first run is begun right after opening and is always
   * ended, then the helper is closed. It is marked successful only when it
   * commits, and then just before it ends; an insert raises only when the
   * run fails, and then it is record k's, the last call before the end.
   */
  lemma TxOpsBracketed(records: seq<Record>, k: nat, e: Ending)
    requires k <= |records| && (e == InsertFailed ==> k < |records|)
    ensures var ops := TxOps(records, k, e);
      && ops[..2] == [Op.Open, Begin]
      && ops[|ops| - 2..] == [End, Op.Close]
      && (MarkSuccessful in ops <==> e == Committed)
      && (e == Committed ==> ops[|ops| - 3] == MarkSuccessful)
      && (forall i :: 0 <= i < |ops| && ops[i].InsertRaised? ==> e == InsertFailed && i == |ops| - 3)
      && (e == InsertFailed ==> ops[|ops| - 3] == InsertRaised(records[k]))
  {
    var ops := TxOps(records, k, e);
    var ins := Inserts(records[..k]);
    var settle := SettleOps(records, k, e);
    assert ops == [Op.Open, Begin] + ins + settle + [End, Op.Close];
    assert forall i :: 2 <= i < 2 + |ins| ==> ops[i] == ins[i - 2];
    if e == Committed {
      assert ops[2 + |ins|] == MarkSuccessful;
    }
  }
}
