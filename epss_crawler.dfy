/**
 * download_or_maintain_data of epss/EPSSCrawler.py: walk the days from the
 * start date up to (not including) today, one request per iteration, with
 * one retry counter shared by the whole walk. A 200 response stores the
 * day's scores and moves on; a failure bumps the counter; when the counter
 * reaches retries_for_request the current day is appended to
 * missing_dates.txt and skipped.
 *
 * The loop is specified by Loop, a recursive function over a Progress
 * record, and the method DownloadOrMaintainData is proved to end in the state
 * Loop computes. The properties of the walk are lemmas about Loop.
 */
module EpssCrawler {
  import opened Base
  import opened Calendar
  import opened FileTree
  import opened EpssArchive

  /** The first day with published scores, 2021-04-14, as an ordinal (see FirstDayValid). */
  const FirstDay: int := 737894

  /** storage/missing_dates.txt */
  const MissingLog: Path := ["missing_dates.txt"]

  /** The constructor arguments that drive the walk, in seconds and attempts. */
  datatype Config = Config(intervalBetweenRequests: int, retryInterval: int, retriesForRequest: int)

  /** How the walk settled a day. */
  datatype Resolution = Saved(date: int, content: string) | Skipped(date: int)

  /**
   * The walk's state: the loop variables date_from and actual_retries, the
   * archive, the sleeps and requests so far, the days settled in this call,
   * and the exception that ended the call, if one did.
   */
  datatype Progress = Progress(
    date: int,
    retries: int,
    fs: Storage,
    sleeps: seq<int>,
    requested: seq<int>,
    resolved: seq<Resolution>,
    failure: Option<Exc>)

  lemma FirstDayValid()
    ensures IsOrdinal(FirstDay)
  {
  }

  /** FirstDay is the ordinal of 2021-04-14. */
  lemma FirstDayIsDate()
    ensures ToOrdinal(Date(2021, 4, 14)) == FirstDay && FromOrdinal(FirstDay) == Date(2021, 4, 14)
  {
    DaysBeforeYearClosedForm(2021);
    assert ToOrdinal(Date(2021, 4, 14)) == FirstDay;
    FromToOrdinal(Date(2021, 4, 14));
  }

  /** date_from: the day after the latest archived day, or 2021-04-14. */
  function StartDate(latest: Option<int>): Result<int>
  {
    match latest
    case None => FirstDayValid(); Ok(FirstDay)
    case Some(d) => if d < MaxOrdinal then Ok(d + 1) else Err(OverflowError)
  }

  /**
   * The walk starts right after the archive: on an archive without day
   * files at 2021-04-14, otherwise one day past the latest archived day,
   * so past every archived day; only the last representable day overflows.
   */
  lemma StartAfterArchive(fs: Storage)
    ensures StartsAfter(StartDate(LatestLocal(fs)), LocalDates(fs))
  {
    LocalDatesAreOrdinals(fs);
    StartAfter(LocalDates(fs), LatestLocal(fs));
  }

  ghost predicate StartsAfter(s: Result<int>, dates: set<int>)
  {
    && (dates == {} ==> s == Ok(FirstDay))
    && (s.Err? <==> MaxOrdinal in dates)
    && (s.Ok? ==> IsOrdinal(s.value) && forall d :: d in dates ==> d < s.value)
    && (s.Ok? && dates != {} ==> s.value - 1 in dates)
  }

  lemma StartAfter(dates: set<int>, latest: Option<int>)
    requires IsMaxOf(latest, dates) && forall d :: d in dates ==> IsOrdinal(d)
    ensures StartsAfter(StartDate(latest), dates)
  {
    FirstDayValid();
  }

  /** What the walk keeps true from one iteration to the next. */
  predicate Inv(c: Config, today: int, w: Progress)
  {
    && c.retriesForRequest >= 1
    && IsOrdinal(today)
    && 1 <= w.date
    && 0 <= w.retries
    && (w.failure.None? ==> w.retries < c.retriesForRequest)
    && WellFormed(w.fs)
    && Behind(w.resolved, w.date, today)
  }

  /** The loop state on entry: counter zero, nothing settled yet. */
  function Begin(start: int, fs: Storage, sleeps: seq<int>, requested: seq<int>): Progress
  {
    Progress(start, 0, fs, sleeps, requested, [], None)
  }

  /** The body of the while loop, once, for the request numbered |w.requested|. */
  function Step(c: Config, net: Network<string>, today: int, w: Progress): (s: Progress)
    requires Inv(c, today, w) && w.failure.None? && w.date < today
    ensures s.failure.None? ==> s.date > w.date || (s.date == w.date && s.retries > w.retries)
  {
    var outcome := net(|w.requested|);
    var requested := w.requested + [w.date];
    var ok := Succeeds(outcome, w.fs, w.date);
    var fs := if ok then SaveCompressedData(w.fs, FormatDate(w.date), outcome.body).value else w.fs;
    var date := if ok then w.date + 1 else w.date;
    var retries := if ok then w.retries else w.retries + 1;
    var resolved := if ok then w.resolved + [Saved(w.date, outcome.body)] else w.resolved;
    var pause := if ok then c.intervalBetweenRequests else c.retryInterval;
    if retries == c.retriesForRequest then
      match AppendFile(fs, MissingLog, LogLine(date))
      case Err(e) => Progress(date, retries, fs, w.sleeps, requested, resolved, Some(e))
      case Ok(fs') => Progress(date + 1, 0, fs', w.sleeps + [pause], requested, resolved + [Skipped(date)], None)
    else Progress(date, retries, fs, w.sleeps + [pause], requested, resolved, None)
  }

  /** The attempt for day n gets a 200 and storing its body does not raise. */
  predicate Succeeds(outcome: Outcome<string>, fs: Storage, n: int)
    requires WellFormed(fs) && IsOrdinal(n)
  {
    outcome.Response? && outcome.status == 200
    && SaveCompressedData(fs, FormatDate(n), outcome.body).Ok?
  }

  /** The whole while loop: iterate Step until today is reached or an exception escapes. */
  function Loop(c: Config, net: Network<string>, today: int, w: Progress): (r: Progress)
    requires Inv(c, today, w)
    ensures Inv(c, today, r)
    decreases if w.failure.Some? then 0 else 1, today - w.date, c.retriesForRequest - w.retries
  {
    if w.failure.Some? || w.date >= today then w
    else
      StepKeepsInv(c, net, today, w);
      Loop(c, net, today, Step(c, net, today, w))
  }

  /** Each iteration keeps the counter below the limit, the archive well formed and the settled days behind the current one. */
  lemma StepKeepsInv(c: Config, net: Network<string>, today: int, w: Progress)
    requires Inv(c, today, w) && w.failure.None? && w.date < today
    ensures Inv(c, today, Step(c, net, today, w))
  {
    var o := net(|w.requested|);
    if Succeeds(o, w.fs, w.date) {
      SaveShape(c, net, today, w);
      SavedKeepsInv(c, today, w, o.body, w.sleeps + [c.intervalBetweenRequests], w.requested + [w.date]);
    } else if w.retries + 1 < c.retriesForRequest {
      RetryShape(c, net, today, w);
    } else if CanOpen(w.fs, MissingLog) {
      GiveUpShape(c, net, today, w);
      SkippedKeepsInv(c, today, w, w.sleeps + [c.retryInterval], w.requested + [w.date]);
    } else {
      CrashShape(c, net, today, w);
    }
  }

  /** The state after a saved day satisfies the invariant. */
  lemma SavedKeepsInv(c: Config, today: int, w: Progress, body: string, sleeps: seq<int>, requested: seq<int>)
    requires Inv(c, today, w) && w.failure.None? && w.date < today
    requires SaveCompressedData(w.fs, FormatDate(w.date), body).Ok?
    ensures Inv(c, today, Progress(w.date + 1, w.retries, SaveCompressedData(w.fs, FormatDate(w.date), body).value,
                                   sleeps, requested, w.resolved + [Saved(w.date, body)], None))
  {
    BehindGrows(w.resolved, Saved(w.date, body), w.date, w.date + 1, today);
  }

  /** The state after a skipped day satisfies the invariant. */
  lemma SkippedKeepsInv(c: Config, today: int, w: Progress, sleeps: seq<int>, requested: seq<int>)
    requires Inv(c, today, w) && w.failure.None? && w.date < today
    requires CanOpen(w.fs, MissingLog)
    ensures Inv(c, today, Progress(w.date + 1, 0, AppendFile(w.fs, MissingLog, LogLine(w.date)).value,
                                   sleeps, requested, w.resolved + [Skipped(w.date)], None))
  {
    AppendFileMeets(w.fs, MissingLog, LogLine(w.date));
    BehindGrows(w.resolved, Skipped(w.date), w.date, w.date + 1, today);
  }

  /** Every settled day lies before date and before today. */
  predicate Behind(rs: seq<Resolution>, date: int, today: int)
  {
    forall k :: 0 <= k < |rs| ==> 1 <= rs[k].date < date && rs[k].date < today
  }

  lemma BehindGrows(rs: seq<Resolution>, x: Resolution, date: int, date': int, today: int)
    requires Behind(rs, date, today) && 1 <= x.date < date' && x.date < today && date <= date'
    ensures Behind(rs + [x], date', today)
  {
  }

  /** str(date) + '\n', one line of missing_dates.txt. */
  function LogLine(n: int): string
    requires IsOrdinal(n)
  {
    FormatDate(n) + "\n"
  }

  /** The text of missing_dates.txt, empty while the file does not exist. */
  function MissingText(fs: Storage): string
  {
    match Read(fs, MissingLog)
    case Some(text) => text
    case None => ""
  }

  /** A 200 response whose body could be stored is saved at the day's path, and the walk moves one day on. */
  lemma StepSaves(c: Config, net: Network<string>, today: int, w: Progress)
    requires Inv(c, today, w) && w.failure.None? && w.date < today
    requires Succeeds(net(|w.requested|), w.fs, w.date)
    ensures var s := Step(c, net, today, w);
      && s.failure.None?
      && s.date == w.date + 1
      && s.retries == w.retries
      && Read(s.fs, DatePath(w.date)) == Some(net(|w.requested|).body)
      && MissingText(s.fs) == MissingText(w.fs)
      && s.sleeps == w.sleeps + [c.intervalBetweenRequests]
      && s.requested == w.requested + [w.date]
      && s.resolved == w.resolved + [Saved(w.date, net(|w.requested|).body)]
  {
    SaveShape(c, net, today, w);
    SaveDay(w.fs, w.date, net(|w.requested|).body);
    assert MissingLog != DatePath(w.date);
  }

  lemma SaveShape(c: Config, net: Network<string>, today: int, w: Progress)
    requires Inv(c, today, w) && w.failure.None? && w.date < today
    requires Succeeds(net(|w.requested|), w.fs, w.date)
    ensures Step(c, net, today, w)
      == Progress(w.date + 1, w.retries, SaveCompressedData(w.fs, FormatDate(w.date), net(|w.requested|).body).value,
                  w.sleeps + [c.intervalBetweenRequests], w.requested + [w.date],
                  w.resolved + [Saved(w.date, net(|w.requested|).body)], None)
  {
  }

  /**
   * A failed attempt -- a non-200 status, an exception from the request, or
   * a 200 whose body cannot be stored -- keeps the day, adds one to the
   * counter and sleeps retry_interval, as long as the counter stays below
   * the limit.
   */
  lemma StepRetries(c: Config, net: Network<string>, today: int, w: Progress)
    requires Inv(c, today, w) && w.failure.None? && w.date < today
    requires !Succeeds(net(|w.requested|), w.fs, w.date)
    requires w.retries + 1 < c.retriesForRequest
    ensures var s := Step(c, net, today, w);
      && s.failure.None?
      && s.date == w.date
      && s.retries == w.retries + 1
      && s.fs == w.fs
      && s.sleeps == w.sleeps + [c.retryInterval]
      && s.requested == w.requested + [w.date]
      && s.resolved == w.resolved
  {
    RetryShape(c, net, today, w);
  }

  lemma RetryShape(c: Config, net: Network<string>, today: int, w: Progress)
    requires Inv(c, today, w) && w.failure.None? && w.date < today
    requires !Succeeds(net(|w.requested|), w.fs, w.date)
    requires w.retries + 1 < c.retriesForRequest
    ensures Step(c, net, today, w)
      == Progress(w.date, w.retries + 1, w.fs, w.sleeps + [c.retryInterval], w.requested + [w.date], w.resolved, None)
  {
  }

  /**
   * The failed attempt that brings the counter to retries_for_request
   * appends the day as one line to missing_dates.txt, resets the counter,
   * sleeps retry_interval and skips the day.
   */
  lemma StepGivesUp(c: Config, net: Network<string>, today: int, w: Progress)
    requires Inv(c, today, w) && w.failure.None? && w.date < today
    requires !Succeeds(net(|w.requested|), w.fs, w.date)
    requires w.retries + 1 == c.retriesForRequest
    requires CanOpen(w.fs, MissingLog)
    ensures var s := Step(c, net, today, w);
      && s.failure.None?
      && s.date == w.date + 1
      && s.retries == 0
      && MissingText(s.fs) == MissingText(w.fs) + LogLine(w.date)
      && s.sleeps == w.sleeps + [c.retryInterval]
      && s.requested == w.requested + [w.date]
      && s.resolved == w.resolved + [Skipped(w.date)]
  {
    GiveUpShape(c, net, today, w);
  }

  lemma GiveUpShape(c: Config, net: Network<string>, today: int, w: Progress)
    requires Inv(c, today, w) && w.failure.None? && w.date < today
    requires !Succeeds(net(|w.requested|), w.fs, w.date)
    requires w.retries + 1 == c.retriesForRequest
    requires CanOpen(w.fs, MissingLog)
    ensures Step(c, net, today, w)
      == Progress(w.date + 1, 0, AppendFile(w.fs, MissingLog, LogLine(w.date)).value, w.sleeps + [c.retryInterval],
                  w.requested + [w.date], w.resolved + [Skipped(w.date)], None)
  {
  }

  /**
   * When missing_dates.txt cannot be opened for appending, the OSError
   * escapes the call before the sleep, with the archive untouched.
   */
  lemma StepCrashes(c: Config, net: Network<string>, today: int, w: Progress)
    requires Inv(c, today, w) && w.failure.None? && w.date < today
    requires !Succeeds(net(|w.requested|), w.fs, w.date)
    requires w.retries + 1 == c.retriesForRequest
    requires !CanOpen(w.fs, MissingLog)
    ensures var s := Step(c, net, today, w);
      && s.failure == Some(OSError)
      && s.fs == w.fs
      && s.sleeps == w.sleeps
      && s.requested == w.requested + [w.date]
  {
    CrashShape(c, net, today, w);
  }

  lemma CrashShape(c: Config, net: Network<string>, today: int, w: Progress)
    requires Inv(c, today, w) && w.failure.None? && w.date < today
    requires !Succeeds(net(|w.requested|), w.fs, w.date)
    requires w.retries + 1 == c.retriesForRequest
    requires !CanOpen(w.fs, MissingLog)
    ensures Step(c, net, today, w)
      == Progress(w.date, w.retries + 1, w.fs, w.sleeps, w.requested + [w.date], w.resolved, Some(OSError))
  {
  }

  /** The four ways an iteration can end, as the shapes of the next state. */
  lemma StepShapes(c: Config, net: Network<string>, today: int, w: Progress)
    requires Inv(c, today, w) && w.failure.None? && w.date < today
    ensures var o := net(|w.requested|);
      var s := Step(c, net, today, w);
      || (Succeeds(o, w.fs, w.date) && s == Progress(w.date + 1, w.retries,
            SaveCompressedData(w.fs, FormatDate(w.date), o.body).value, w.sleeps + [c.intervalBetweenRequests],
            w.requested + [w.date], w.resolved + [Saved(w.date, o.body)], None))
      || (s == Progress(w.date, w.retries + 1, w.fs, w.sleeps + [c.retryInterval], w.requested + [w.date], w.resolved, None))
      || (CanOpen(w.fs, MissingLog) && s == Progress(w.date + 1, 0, AppendFile(w.fs, MissingLog, LogLine(w.date)).value,
            w.sleeps + [c.retryInterval], w.requested + [w.date], w.resolved + [Skipped(w.date)], None))
      || (s == Progress(w.date, w.retries + 1, w.fs, w.sleeps, w.requested + [w.date], w.resolved, Some(OSError)))
  {
    if Succeeds(net(|w.requested|), w.fs, w.date) {
      SaveShape(c, net, today, w);
    } else if w.retries + 1 < c.retriesForRequest {
      RetryShape(c, net, today, w);
    } else if CanOpen(w.fs, MissingLog) {
      GiveUpShape(c, net, today, w);
    } else {
      CrashShape(c, net, today, w);
    }
  }

  /** Saved days can be read back from the archive at their path. */
  ghost predicate Kept(fs: Storage, rs: seq<Resolution>)
  {
    forall k :: 0 <= k < |rs| && rs[k].Saved? && IsOrdinal(rs[k].date) ==>
      Read(fs, DatePath(rs[k].date)) == Some(rs[k].content)
  }

  /** Dates of settled days, each a valid ordinal. */
  predicate Ordinals(rs: seq<Resolution>)
  {
    forall k :: 0 <= k < |rs| ==> IsOrdinal(rs[k].date)
  }

  /** The lines the walk appends to missing_dates.txt for the settled days rs. */
  function SkipLines(rs: seq<Resolution>): string
    requires Ordinals(rs)
  {
    if rs == [] then ""
    else SkipLines(rs[..|rs| - 1]) + EntryLine(rs[|rs| - 1])
  }

  /** A skipped day contributes its line, a saved day nothing. */
  function EntryLine(x: Resolution): string
    requires IsOrdinal(x.date)
  {
    if x.Skipped? then LogLine(x.date) else ""
  }

  lemma {:induction false} SkipLinesConcat(a: seq<Resolution>, b: seq<Resolution>)
    requires Ordinals(a) && Ordinals(b)
    ensures Ordinals(a + b) && SkipLines(a + b) == SkipLines(a) + SkipLines(b)
    decreases |b|
  {
    var ab := a + b;
    assert Ordinals(ab);
    if b == [] {
      assert ab == a;
    } else {
      var b' := b[..|b| - 1];
      assert ab[..|ab| - 1] == a + b' && ab[|ab| - 1] == b[|b| - 1];
      SkipLinesConcat(a, b');
      Assoc(SkipLines(a), SkipLines(b'), EntryLine(b[|b| - 1]));
    }
  }

  lemma BehindOrdinals(rs: seq<Resolution>, date: int, today: int)
    requires Behind(rs, date, today) && today <= MaxOrdinal
    ensures Ordinals(rs)
  {
  }

  /**
   * One iteration: the request is for the current day, the day moves by at
   * most one, and when it moves the day is settled -- saved or skipped --
   * as the next entry; missing_dates.txt grows by exactly the skipped day's
   * line; earlier saved days stay readable; and every iteration that does
   * not raise sleeps exactly once.
   */
  lemma StepFacts(c: Config, net: Network<string>, today: int, w: Progress)
    requires Inv(c, today, w) && w.failure.None? && w.date < today
    ensures var s := Step(c, net, today, w);
      && s.requested == w.requested + [w.date]
      && w.date <= s.date <= w.date + 1
      && |s.resolved| == |w.resolved| + (s.date - w.date)
      && s.resolved[..|w.resolved|] == w.resolved
      && (s.date > w.date ==> s.resolved[|w.resolved|].date == w.date)
      && (s.failure.None? ==> |s.sleeps| == |w.sleeps| + 1)
      && (s.failure.Some? ==> s.sleeps == w.sleeps)
  {
    StepShapes(c, net, today, w);
  }

  lemma StepLogs(c: Config, net: Network<string>, today: int, w: Progress)
    requires Inv(c, today, w) && w.failure.None? && w.date < today
    ensures var s := Step(c, net, today, w);
      Ordinals(s.resolved[|w.resolved|..]) && MissingText(s.fs) == MissingText(w.fs) + SkipLines(s.resolved[|w.resolved|..])
  {
    var o := net(|w.requested|);
    if Succeeds(o, w.fs, w.date) {
      SaveLogs(c, net, today, w);
    } else if w.retries + 1 < c.retriesForRequest {
      RetryShape(c, net, today, w);
      SkipLinesNone(w.resolved);
    } else if CanOpen(w.fs, MissingLog) {
      GiveUpLogs(c, net, today, w);
    } else {
      CrashShape(c, net, today, w);
      SkipLinesNone(w.resolved);
    }
  }

  lemma SaveLogs(c: Config, net: Network<string>, today: int, w: Progress)
    requires Inv(c, today, w) && w.failure.None? && w.date < today
    requires Succeeds(net(|w.requested|), w.fs, w.date)
    ensures var s := Step(c, net, today, w);
      Ordinals(s.resolved[|w.resolved|..]) && MissingText(s.fs) == MissingText(w.fs) + SkipLines(s.resolved[|w.resolved|..])
  {
    var o := net(|w.requested|);
    SaveShape(c, net, today, w);
    SaveLeavesLog(w.fs, w.date, o.body);
    SkipLinesOne(w.resolved, Saved(w.date, o.body));
  }

  lemma GiveUpLogs(c: Config, net: Network<string>, today: int, w: Progress)
    requires Inv(c, today, w) && w.failure.None? && w.date < today
    requires !Succeeds(net(|w.requested|), w.fs, w.date)
    requires w.retries + 1 == c.retriesForRequest
    requires CanOpen(w.fs, MissingLog)
    ensures var s := Step(c, net, today, w);
      Ordinals(s.resolved[|w.resolved|..]) && MissingText(s.fs) == MissingText(w.fs) + SkipLines(s.resolved[|w.resolved|..])
  {
    GiveUpShape(c, net, today, w);
    SkipLinesOne(w.resolved, Skipped(w.date));
  }

  lemma SkipLinesOne(rs: seq<Resolution>, x: Resolution)
    requires IsOrdinal(x.date)
    ensures (rs + [x])[|rs|..] == [x] && Ordinals([x])
    ensures SkipLines([x]) == EntryLine(x)
  {
    assert [x][..0] == [];
  }

  lemma SkipLinesNone(rs: seq<Resolution>)
    ensures rs[|rs|..] == [] && SkipLines([]) == ""
  {
  }

  lemma StepKeeps(c: Config, net: Network<string>, today: int, w: Progress)
    requires Inv(c, today, w) && w.failure.None? && w.date < today && Kept(w.fs, w.resolved)
    ensures Kept(Step(c, net, today, w).fs, Step(c, net, today, w).resolved)
  {
    var o := net(|w.requested|);
    if Succeeds(o, w.fs, w.date) {
      SaveShape(c, net, today, w);
      SaveKeeps(w.fs, w.date, o.body, w.resolved);
    } else if w.retries + 1 < c.retriesForRequest {
      RetryShape(c, net, today, w);
    } else if CanOpen(w.fs, MissingLog) {
      GiveUpShape(c, net, today, w);
      LogKeeps(w.fs, LogLine(w.date), w.resolved, Skipped(w.date));
    } else {
      CrashShape(c, net, today, w);
    }
  }

  lemma SaveLeavesLog(fs: Storage, n: int, body: string)
    requires WellFormed(fs) && IsOrdinal(n) && SaveCompressedData(fs, FormatDate(n), body).Ok?
    ensures MissingText(SaveCompressedData(fs, FormatDate(n), body).value) == MissingText(fs)
  {
    SaveDay(fs, n, body);
    assert MissingLog != DatePath(n);
  }

  /** Storing day n keeps every day saved before n readable, and makes n readable. */
  lemma SaveKeeps(fs: Storage, n: int, body: string, rs: seq<Resolution>)
    requires WellFormed(fs) && IsOrdinal(n) && Kept(fs, rs)
    requires forall k :: 0 <= k < |rs| ==> rs[k].date < n
    requires SaveCompressedData(fs, FormatDate(n), body).Ok?
    ensures Kept(SaveCompressedData(fs, FormatDate(n), body).value, rs + [Saved(n, body)])
  {
    var fs' := SaveCompressedData(fs, FormatDate(n), body).value;
    SaveDay(fs, n, body);
    KeptAcross(fs, fs', n, body, rs);
  }

  lemma KeptAcross(fs: Storage, fs': Storage, n: int, body: string, rs: seq<Resolution>)
    requires IsOrdinal(n) && Kept(fs, rs)
    requires forall k :: 0 <= k < |rs| ==> rs[k].date < n
    requires Read(fs', DatePath(n)) == Some(body)
    requires forall q :: q in fs && q != DatePath(n) ==> q in fs' && fs'[q] == fs[q]
    ensures Kept(fs', rs + [Saved(n, body)])
  {
    forall k | 0 <= k < |rs| && rs[k].Saved? && IsOrdinal(rs[k].date)
      ensures Read(fs', DatePath(rs[k].date)) == Some(rs[k].content)
    {
      KeptEarlier(fs, fs', n, rs[k].date, rs[k].content);
    }
    KeptSnoc(fs', rs, Saved(n, body));
  }

  /** A day saved before n still reads back after day n's file was written. */
  lemma KeptEarlier(fs: Storage, fs': Storage, n: int, d: int, content: string)
    requires IsOrdinal(n) && IsOrdinal(d) && d < n
    requires Read(fs, DatePath(d)) == Some(content)
    requires forall q :: q in fs && q != DatePath(n) ==> q in fs' && fs'[q] == fs[q]
    ensures Read(fs', DatePath(d)) == Some(content)
  {
    if DatePath(d) == DatePath(n) {
      DatePathInjective(d, n);
    }
    ReadUntouched(fs, fs', DatePath(d), DatePath(n));
  }

  /** Adding one resolution keeps the others readable; a saved one must read back itself. */
  lemma KeptSnoc(fs: Storage, rs: seq<Resolution>, x: Resolution)
    requires Kept(fs, rs)
    requires x.Saved? && IsOrdinal(x.date) ==> Read(fs, DatePath(x.date)) == Some(x.content)
    ensures Kept(fs, rs + [x])
  {
    var rs' := rs + [x];
    forall k | 0 <= k < |rs'| && rs'[k].Saved? && IsOrdinal(rs'[k].date)
      ensures Read(fs, DatePath(rs'[k].date)) == Some(rs'[k].content)
    {
      if k < |rs| {
        assert rs'[k] == rs[k];
      }
    }
  }

  /** A file at a path other than the one rewritten reads the same afterwards. */
  lemma ReadUntouched(fs: Storage, fs': Storage, q: Path, p: Path)
    requires q != p
    requires forall x :: x in fs && x != p ==> x in fs' && fs'[x] == fs[x]
    ensures Read(fs, q).Some? ==> Read(fs', q) == Read(fs, q)
  {
  }

  /** Appending to missing_dates.txt keeps every saved day readable. */
  lemma LogKeeps(fs: Storage, line: string, rs: seq<Resolution>, x: Resolution)
    requires WellFormed(fs) && Kept(fs, rs) && CanOpen(fs, MissingLog) && x.Skipped?
    ensures Kept(AppendFile(fs, MissingLog, line).value, rs + [x])
  {
    var fs' := AppendFile(fs, MissingLog, line).value;
    AppendFileMeets(fs, MissingLog, line);
    forall k | 0 <= k < |rs| && rs[k].Saved? && IsOrdinal(rs[k].date)
      ensures Read(fs', DatePath(rs[k].date)) == Some(rs[k].content)
    {
      LogLeavesDay(fs, fs', rs[k].date);
    }
    KeptSnoc(fs', rs, x);
  }

  /** A change confined to missing_dates.txt leaves every day's file as it was. */
  lemma LogLeavesDay(fs: Storage, fs': Storage, d: int)
    requires SameExcept(fs, fs', MissingLog) && IsOrdinal(d)
    ensures Read(fs', DatePath(d)) == Read(fs, DatePath(d))
  {
    ReadElsewhere(fs, fs', MissingLog, DatePath(d));
  }

  /**
   * Unless an exception escapes, the walk stops exactly at today; a walk
   * that starts at or past today, or has already raised, does nothing.
   */
  lemma {:induction false} LoopEnds(c: Config, net: Network<string>, today: int, w: Progress)
    requires Inv(c, today, w)
    ensures var r := Loop(c, net, today, w);
      && (w.failure.Some? || w.date >= today ==> r == w)
      && (w.failure.None? && w.date <= today && r.failure.None? ==> r.date == today)
    decreases if w.failure.Some? then 0 else 1, today - w.date, c.retriesForRequest - w.retries
  {
    if w.failure.None? && w.date < today {
      var s := Step(c, net, today, w);
      StepKeepsInv(c, net, today, w);
      StepFacts(c, net, today, w);
      LoopEnds(c, net, today, s);
    }
  }

  /**
   * The days from the start up to where the walk stops are settled once
   * each, in ascending order and without gaps, each either saved or
   * skipped; what was settled before is kept.
   */
  lemma {:induction false} LoopSettles(c: Config, net: Network<string>, today: int, w: Progress)
    requires Inv(c, today, w)
    ensures var r := Loop(c, net, today, w); SettledFrom(w.resolved, w.date, r.resolved, r.date)
    decreases if w.failure.Some? then 0 else 1, today - w.date, c.retriesForRequest - w.retries
  {
    if w.failure.None? && w.date < today {
      var s := Step(c, net, today, w);
      StepKeepsInv(c, net, today, w);
      StepSettles(c, net, today, w);
      LoopSettles(c, net, today, s);
      var r := Loop(c, net, today, s);
      SettledInOrder(w.resolved, s.resolved, r.resolved, w.date, s.date, r.date);
    }
  }

  /** One iteration settles the current day as the next entry exactly when it moves on. */
  lemma StepSettles(c: Config, net: Network<string>, today: int, w: Progress)
    requires Inv(c, today, w) && w.failure.None? && w.date < today
    ensures var s := Step(c, net, today, w); SettledFrom(w.resolved, w.date, s.resolved, s.date)
  {
    StepFacts(c, net, today, w);
    var s := Step(c, net, today, w);
    SettledOneStep(w.resolved, w.date, s.resolved, s.date);
  }

  /** Keeping the old entries and adding the current day exactly when moving one day on settles in order. */
  lemma SettledOneStep(r0: seq<Resolution>, d0: int, rs: seq<Resolution>, d: int)
    requires d0 <= d <= d0 + 1 && |rs| == |r0| + (d - d0) && rs[..|r0|] == r0
    requires d > d0 ==> rs[|r0|].date == d0
    ensures SettledFrom(r0, d0, rs, d)
  {
  }

  /** The days settled in order d0.. are rs[|r0|..]: one entry per day, consecutive. */
  predicate SettledFrom(r0: seq<Resolution>, d0: int, rs: seq<Resolution>, d: int)
  {
    && d0 <= d
    && |rs| == |r0| + (d - d0)
    && rs[..|r0|] == r0
    && forall k :: |r0| <= k < |rs| ==> rs[k].date == d0 + (k - |r0|)
  }

  lemma SettledInOrder(a: seq<Resolution>, b: seq<Resolution>, c: seq<Resolution>, da: int, db: int, dc: int)
    requires SettledFrom(a, da, b, db) && SettledFrom(b, db, c, dc)
    ensures SettledFrom(a, da, c, dc)
  {
    assert c[..|a|] == c[..|b|][..|a|];
    forall k | |a| <= k < |c| ensures c[k].date == da + (k - |a|) {
      if k < |b| {
        assert c[k] == c[..|b|][k];
      }
    }
  }

  /** missing_dates.txt grows by one line per skipped day, in the order the days were skipped, and by nothing else. */
  lemma {:induction false} LoopLogs(c: Config, net: Network<string>, today: int, w: Progress)
    requires Inv(c, today, w)
    ensures var r := Loop(c, net, today, w);
      && |w.resolved| <= |r.resolved|
      && Ordinals(r.resolved[|w.resolved|..])
      && MissingText(r.fs) == MissingText(w.fs) + SkipLines(r.resolved[|w.resolved|..])
    decreases if w.failure.Some? then 0 else 1, today - w.date, c.retriesForRequest - w.retries
  {
    if w.failure.None? && w.date < today {
      var s := Step(c, net, today, w);
      StepKeepsInv(c, net, today, w);
      StepFacts(c, net, today, w);
      StepLogs(c, net, today, w);
      LoopLogs(c, net, today, s);
      LoopSettles(c, net, today, s);
      var r := Loop(c, net, today, s);
      LogsCompose(w.resolved, s.resolved, r.resolved, MissingText(w.fs), MissingText(s.fs), MissingText(r.fs));
    } else {
      assert w.resolved[|w.resolved|..] == [];
    }
  }

  lemma LogsCompose(a: seq<Resolution>, b: seq<Resolution>, c: seq<Resolution>, ta: string, tb: string, tc: string)
    requires |a| <= |b| <= |c| && c[..|b|] == b && b[..|a|] == a
    requires Ordinals(b[|a|..]) && tb == ta + SkipLines(b[|a|..])
    requires Ordinals(c[|b|..]) && tc == tb + SkipLines(c[|b|..])
    ensures Ordinals(c[|a|..]) && tc == ta + SkipLines(c[|a|..])
  {
    var x, y := b[|a|..], c[|b|..];
    SuffixSplit(c, |a|, |b|);
    assert c[|a|..|b|] == c[..|b|][|a|..];
    SkipLinesConcat(x, y);
    Assoc(ta, SkipLines(x), SkipLines(y));
  }

  /** Every day the walk saved can be read back from the archive when the call returns. */
  lemma {:induction false} LoopKeeps(c: Config, net: Network<string>, today: int, w: Progress)
    requires Inv(c, today, w) && Kept(w.fs, w.resolved)
    ensures var r := Loop(c, net, today, w); Kept(r.fs, r.resolved)
    decreases if w.failure.Some? then 0 else 1, today - w.date, c.retriesForRequest - w.retries
  {
    if w.failure.None? && w.date < today {
      StepKeepsInv(c, net, today, w);
      StepKeeps(c, net, today, w);
      LoopKeeps(c, net, today, Step(c, net, today, w));
    }
  }

  /**
   * Requests go out for days in ascending order, each between the start
   * and the stopping day and before today, and the walk sleeps once per
   * request except after the one whose failure could not be logged.
   */
  lemma {:induction false} LoopPaces(c: Config, net: Network<string>, today: int, w: Progress)
    requires Inv(c, today, w)
    ensures var r := Loop(c, net, today, w);
      && Paced(w.requested, w.date, r.requested, r.date, today)
      && |r.sleeps| + (if r.failure.Some? && w.failure.None? then 1 else 0)
         == |w.sleeps| + (|r.requested| - |w.requested|)
    decreases if w.failure.Some? then 0 else 1, today - w.date, c.retriesForRequest - w.retries
  {
    if w.failure.None? && w.date < today {
      var s := Step(c, net, today, w);
      StepKeepsInv(c, net, today, w);
      StepFacts(c, net, today, w);
      LoopPaces(c, net, today, s);
      LoopSettles(c, net, today, s);
      var r := Loop(c, net, today, s);
      PacedCons(w.requested, w.date, s.date, r.requested, r.date, today);
    }
  }

  /** The requests after q0 are for days in [d0, d] before today, in ascending order. */
  predicate Paced(q0: seq<int>, d0: int, qs: seq<int>, d: int, today: int)
  {
    && |q0| <= |qs|
    && qs[..|q0|] == q0
    && (forall i :: |q0| <= i < |qs| ==> d0 <= qs[i] <= d && qs[i] < today)
    && (forall i, j :: |q0| <= i < j < |qs| ==> qs[i] <= qs[j])
  }

  lemma PacedCons(q0: seq<int>, d0: int, d1: int, qs: seq<int>, d: int, today: int)
    requires d0 <= d1 && d0 < today && Paced(q0 + [d0], d1, qs, d, today) && d1 <= d
    ensures Paced(q0, d0, qs, d, today)
  {
    assert qs[..|q0|] == qs[..|q0| + 1][..|q0|];
    assert qs[|q0|] == qs[..|q0| + 1][|q0|];
  }

  /**
   * download_or_maintain_data(): the start comes from the archive, the
   * walk runs to today, and the call ends in the state Loop describes. The
   * storage, the sleeps and the requests so far go in and come out; the
   * exception that escapes, if any, is returned.
   */
  method DownloadOrMaintainData(c: Config, net: Network<string>, today: int,
                                fs: Storage, sleeps: seq<int>, requested: seq<int>)
    returns (fs': Storage, sleeps': seq<int>, requested': seq<int>, failure: Option<Exc>)
    requires WellFormed(fs) && c.retriesForRequest >= 1 && IsOrdinal(today)
    ensures StartDate(LatestLocal(fs)).Err? ==>
      failure == Some(OverflowError) && fs' == fs && sleeps' == sleeps && requested' == requested
    ensures StartDate(LatestLocal(fs)).Ok? ==>
      var r := Loop(c, net, today, Begin(StartDate(LatestLocal(fs)).value, fs, sleeps, requested));
      fs' == r.fs && sleeps' == r.sleeps && requested' == r.requested && failure == r.failure
  {
    fs', sleeps', requested' := fs, sleeps, requested;
    var latest := RetrieveLastLocalDate(fs);
    LatestIsUnique(fs, latest);
    var start := StartDate(latest);
    if start.Err? {
      return fs, sleeps, requested, Some(start.error);
    }
    var dateFrom := start.value;
    var actualRetries := 0;
    ghost var resolved: seq<Resolution> := [];
    ghost var init := Begin(dateFrom, fs, sleeps, requested);
    while dateFrom < today
      invariant Inv(c, today, Progress(dateFrom, actualRetries, fs', sleeps', requested', resolved, None))
      invariant Loop(c, net, today, Progress(dateFrom, actualRetries, fs', sleeps', requested', resolved, None))
        == Loop(c, net, today, init)
      decreases today - dateFrom, c.retriesForRequest - actualRetries
    {
      ghost var cur := Progress(dateFrom, actualRetries, fs', sleeps', requested', resolved, None);
      StepKeepsInv(c, net, today, cur);
      dateFrom, actualRetries, fs', sleeps', requested', failure, resolved :=
        Attempt(c, net, today, dateFrom, actualRetries, fs', sleeps', requested', resolved);
      if failure.Some? {
        return;
      }
    }
    failure := None;
  }

  /**
   * One pass of the body of the while loop: request the day, store it or
   * count a failed attempt, give up on the day when the attempts are
   * exhausted, and pause. The loop's state moves exactly as Step says.
   */
  method Attempt(c: Config, net: Network<string>, today: int, dateFrom: int, actualRetries: int,
                 fs: Storage, sleeps: seq<int>, requested: seq<int>, ghost resolved: seq<Resolution>)
    returns (date: int, retries: int, fs': Storage, sleeps': seq<int>, requested': seq<int>,
             failure: Option<Exc>, ghost resolved': seq<Resolution>)
    requires Inv(c, today, Progress(dateFrom, actualRetries, fs, sleeps, requested, resolved, None))
    requires dateFrom < today
    ensures Progress(date, retries, fs', sleeps', requested', resolved', failure)
      == Step(c, net, today, Progress(dateFrom, actualRetries, fs, sleeps, requested, resolved, None))
  {
    ghost var cur := Progress(dateFrom, actualRetries, fs, sleeps, requested, resolved, None);
    if Succeeds(net(|requested|), fs, dateFrom) {
      SaveShape(c, net, today, cur);
    } else if actualRetries + 1 < c.retriesForRequest {
      RetryShape(c, net, today, cur);
    } else if CanOpen(fs, MissingLog) {
      GiveUpShape(c, net, today, cur);
    } else {
      CrashShape(c, net, today, cur);
    }
    date, retries, resolved', failure, sleeps' := dateFrom, actualRetries, resolved, None, sleeps;
    var failed, body;
    failed, body, fs', requested' := Fetch(net, fs, requested, date);
    if failed {
      retries := retries + 1;
    } else {
      resolved' := resolved' + [Saved(date, body)];
      date := date + 1;
    }
    if retries == c.retriesForRequest {
      fs', failure := RecordMissing(fs', date);
      if failure.Some? {
        return;
      }
      resolved' := resolved' + [Skipped(date)];
      retries := 0;
      date := date + 1;
    }
    sleeps' := sleeps' + [if failed then c.retryInterval else c.intervalBetweenRequests];
  }

  /**
   * The try block of the loop: request the day and, on status 200, store
   * the body; failed reports that the except branch ran or the status was
   * not 200.
   */
  method Fetch(net: Network<string>, fs: Storage, requested: seq<int>, date: int)
    returns (failed: bool, body: string, fs': Storage, requested': seq<int>)
    requires WellFormed(fs) && IsOrdinal(date)
    ensures requested' == requested + [date]
    ensures !failed <==> Succeeds(net(|requested|), fs, date)
    ensures !failed ==> body == net(|requested|).body
    ensures !failed ==> fs' == SaveCompressedData(fs, FormatDate(date), body).value
    ensures failed ==> fs' == fs
  {
    var outcome := net(|requested|);
    requested' := requested + [date];
    failed, body, fs' := true, "", fs;
    if outcome.Response? && outcome.status == 200 {
      var saved := SaveCompressedData(fs, FormatDate(date), outcome.body);
      if saved.Ok? {
        fs' := saved.value;
        failed, body := false, outcome.body;
      }
    }
  }

  /**
   * The branch taken once the attempts at a day are exhausted: the day is
   * appended as one line to missing_dates.txt. The OSError of an append
   * that cannot open the file is returned, and nothing changes then.
   */
  method RecordMissing(fs: Storage, date: int) returns (fs': Storage, failure: Option<Exc>)
    requires WellFormed(fs) && IsOrdinal(date)
    ensures failure.None? <==> CanOpen(fs, MissingLog)
    ensures failure.None? ==> fs' == AppendFile(fs, MissingLog, LogLine(date)).value
    ensures failure.Some? ==> failure == Some(OSError) && fs' == fs
  {
    match AppendFile(fs, MissingLog, LogLine(date))
    case Err(e) =>
      fs', failure := fs, Some(e);
    case Ok(t) =>
      fs', failure := t, None;
  }
}
