/**
 * The second EPSS crawler, whose storage methods are still stubs. Its
 * walk over the days has its own policy: an exception moves on to the
 * next day at once, a 429 or 503 adds a pause of retry_interval, a day
 * whose attempts are exhausted is passed over without a record, and
 * every attempt ends with a pause of interval_between_requests. The
 * stubs fix the rest: retrieve_last_local_date always answers None, and
 * save_compressed_data(date, content) is called with one argument only,
 * so every 200 ends in a TypeError and nothing is ever stored.
 */
module EpssVariant {
  import opened Base
  import opened Calendar
  import EpssCrawler

  type Config = EpssCrawler.Config

  /** The loop's variables and the outside effects so far. */
  datatype Walk = Walk(date: int, retries: int, sleeps: seq<int>, requested: seq<int>)

  /** What holds on every pass through the loop head. */
  predicate Going(c: Config, today: int, w: Walk)
  {
    && c.retriesForRequest >= 1
    && IsOrdinal(today)
    && 1 <= w.date
    && 0 <= w.retries < c.retriesForRequest
  }

  /** retrieve_last_local_date(): the stub has no archive to look at. */
  function RetrieveLastLocalDate(): (r: Option<int>)
    ensures r.None?
  {
    None
  }

  /**
   * The first day of the walk. With maintain set it is the day before
   * today, which does not exist when today is 0001-01-01; otherwise it
   * is the stub's answer, or 2021-04-14 when that is None (always).
   */
  function StartDate(maintain: bool, today: int): (r: Result<int>)
    requires IsOrdinal(today)
    ensures maintain ==> (r.Ok? <==> today > 1) && (r.Ok? ==> r.value + 1 == today)
    ensures !maintain ==> r == Ok(EpssCrawler.FirstDay)
    ensures r.Err? ==> r.error == OverflowError
  {
    if maintain then
      (if today > 1 then Ok(today - 1) else Err(OverflowError))
    else
      match RetrieveLastLocalDate()
      case None => Ok(EpssCrawler.FirstDay)
      case Some(d) => Ok(d)
  }

  function Begin(start: int, sleeps: seq<int>, requested: seq<int>): Walk
  {
    Walk(start, 0, sleeps, requested)
  }

  /** The pauses one attempt takes: retry_interval on 429 and 503, then always interval_between_requests. */
  function Pause(c: Config, o: Outcome<string>): (p: seq<int>)
    ensures 1 <= |p| && p[|p| - 1] == c.intervalBetweenRequests
    ensures |p| == 2 <==> o.Response? && (o.status == 429 || o.status == 503)
    ensures |p| == 2 ==> p[0] == c.retryInterval
  {
    if o.Response? && (o.status == 429 || o.status == 503) then [c.retryInterval, c.intervalBetweenRequests]
    else [c.intervalBetweenRequests]
  }

  /** The body of the while loop, once, for the request numbered |w.requested|. */
  function Step(c: Config, net: Network<string>, today: int, w: Walk): (s: Walk)
    requires Going(c, today, w) && w.date < today
    ensures Going(c, today, s)
    ensures s.date == w.date + 1 || (s.date == w.date && s.retries == w.retries + 1)
  {
    var o := net(|w.requested|);
    var sleeps := w.sleeps + Pause(c, o);
    var requested := w.requested + [w.date];
    if o.Response? && o.status != 200 then
      var retries := w.retries + 1;
      if retries == c.retriesForRequest then Walk(w.date + 1, 0, sleeps, requested)
      else Walk(w.date, retries, sleeps, requested)
    else
      // an exception from the request, or the TypeError of the one-argument
      // call of save_compressed_data after a 200: the handler moves on
      Walk(w.date + 1, w.retries, sleeps, requested)
  }

  /** The whole while loop: iterate Step until today is reached. */
  function Loop(c: Config, net: Network<string>, today: int, w: Walk): (r: Walk)
    requires Going(c, today, w)
    ensures Going(c, today, r)
    ensures r.date == if w.date <= today then today else w.date
    decreases today - w.date, c.retriesForRequest - w.retries
  {
    if w.date >= today then w else Loop(c, net, today, Step(c, net, today, w))
  }

  /**
   * An exception, or a 200 (whose storing raises), moves on to the next
   * day and leaves the counter as it was.
   */
  lemma StepMovesOn(c: Config, net: Network<string>, today: int, w: Walk)
    requires Going(c, today, w) && w.date < today
    requires var o := net(|w.requested|); o.Raised? || o.status == 200
    ensures Step(c, net, today, w)
      == Walk(w.date + 1, w.retries, w.sleeps + [c.intervalBetweenRequests], w.requested + [w.date])
  {
  }

  /**
   * Any other status adds one to the counter, on the same day; when the
   * counter reaches retries_for_request it is reset and the day is
   * passed over. A 429 or 503 also pauses for retry_interval.
   */
  lemma StepCounts(c: Config, net: Network<string>, today: int, w: Walk)
    requires Going(c, today, w) && w.date < today
    requires var o := net(|w.requested|); o.Response? && o.status != 200
    ensures var s := Step(c, net, today, w);
      && s.requested == w.requested + [w.date]
      && s.sleeps == w.sleeps + Pause(c, net(|w.requested|))
      && (w.retries + 1 < c.retriesForRequest ==> s.date == w.date && s.retries == w.retries + 1)
      && (w.retries + 1 == c.retriesForRequest ==> s.date == w.date + 1 && s.retries == 0)
  {
  }

  /** The pauses of the attempts numbered i .. j-1, in order. */
  function Pauses(c: Config, net: Network<string>, i: nat, j: nat): seq<int>
    decreases j - i
  {
    if i >= j then [] else Pause(c, net(i)) + Pauses(c, net, i + 1, j)
  }

  /**
   * The sleeps of a call are exactly the pauses of its attempts, one
   * attempt per request, so every attempt ends with interval_between_requests
   * and retry_interval appears only after a 429 or 503.
   */
  lemma {:induction false} LoopSleeps(c: Config, net: Network<string>, today: int, w: Walk)
    requires Going(c, today, w)
    ensures var r := Loop(c, net, today, w);
      && |w.requested| <= |r.requested|
      && r.sleeps == w.sleeps + Pauses(c, net, |w.requested|, |r.requested|)
    decreases today - w.date, c.retriesForRequest - w.retries
  {
    if w.date < today {
      var s := Step(c, net, today, w);
      LoopSleeps(c, net, today, s);
      var r := Loop(c, net, today, s);
      var n := |w.requested|;
      assert Pauses(c, net, n, |r.requested|) == Pause(c, net(n)) + Pauses(c, net, n + 1, |r.requested|);
      Assoc(w.sleeps, Pause(c, net(n)), Pauses(c, net, n + 1, |r.requested|));
    } else {
      assert Pauses(c, net, |w.requested|, |w.requested|) == [];
    }
  }

  /**
   * The requests of a call are for days from the start up to the day
   * before today, in ascending order, and every one of those days is
   * requested at least once.
   */
  lemma {:induction false} LoopPaces(c: Config, net: Network<string>, today: int, w: Walk)
    requires Going(c, today, w)
    ensures var r := Loop(c, net, today, w);
      && EpssCrawler.Paced(w.requested, w.date, r.requested, r.date, today)
      && forall d :: w.date <= d < r.date ==> d in r.requested[|w.requested|..]
    decreases today - w.date, c.retriesForRequest - w.retries
  {
    if w.date < today {
      var s := Step(c, net, today, w);
      LoopPaces(c, net, today, s);
      var r := Loop(c, net, today, s);
      EpssCrawler.PacedCons(w.requested, w.date, s.date, r.requested, r.date, today);
      Covered(w.requested, s.requested, r.requested, w.date, s.date, r.date);
    }
  }

  lemma Covered(q0: seq<int>, q1: seq<int>, qs: seq<int>, d0: int, d1: int, d: int)
    requires |q0| + 1 == |q1| <= |qs| && qs[..|q1|] == q1 && q1 == q0 + [d0]
    requires d0 <= d1 <= d0 + 1
    requires forall e :: d1 <= e < d ==> e in qs[|q1|..]
    ensures forall e :: d0 <= e < d ==> e in qs[|q0|..]
  {
    assert qs[|q0|] == q1[|q0|] == d0;
    assert qs[|q0|..] == [d0] + qs[|q1|..];
  }

  /**
   * In maintain mode every request of the call is for the day before
   * today: a single day is processed, however many attempts it takes.
   */
  lemma MaintainVisitsYesterday(c: Config, net: Network<string>, today: int, sleeps: seq<int>, requested: seq<int>)
    requires c.retriesForRequest >= 1 && IsOrdinal(today) && today > 1
    ensures var r := Loop(c, net, today, Begin(today - 1, sleeps, requested));
      && r.date == today
      && |requested| < |r.requested|
      && forall i :: |requested| <= i < |r.requested| ==> r.requested[i] == today - 1
  {
    var w := Begin(today - 1, sleeps, requested);
    LoopPaces(c, net, today, w);
    var r := Loop(c, net, today, w);
    assert today - 1 in r.requested[|requested|..];
  }

  /**
   * Outside maintain mode the walk starts at 2021-04-14 on every call,
   * whatever was fetched before, and requests every day from there to
   * the day before today.
   */
  lemma FullWalkFromFirstDay(c: Config, net: Network<string>, today: int, sleeps: seq<int>, requested: seq<int>)
    requires c.retriesForRequest >= 1 && IsOrdinal(today)
    ensures StartDate(false, today) == Ok(EpssCrawler.FirstDay)
    ensures var r := Loop(c, net, today, Begin(EpssCrawler.FirstDay, sleeps, requested));
      |requested| <= |r.requested| && forall d :: EpssCrawler.FirstDay <= d < today ==> d in r.requested[|requested|..]
  {
    LoopPaces(c, net, today, Begin(EpssCrawler.FirstDay, sleeps, requested));
  }

  /**
   * download_or_maintain_data(maintain): fix the start and run the loop
   * to today. The sleeps and requests so far go in and come out; the
   * OverflowError of the day before 0001-01-01 is the only exception
   * that can escape.
   */
  method DownloadOrMaintainData(c: Config, net: Network<string>, today: int, maintain: bool,
                                sleeps: seq<int>, requested: seq<int>)
    returns (sleeps': seq<int>, requested': seq<int>, failure: Option<Exc>)
    requires c.retriesForRequest >= 1 && IsOrdinal(today)
    ensures StartDate(maintain, today).Err? ==>
      failure == Some(OverflowError) && sleeps' == sleeps && requested' == requested
    ensures StartDate(maintain, today).Ok? ==>
      var r := Loop(c, net, today, Begin(StartDate(maintain, today).value, sleeps, requested));
      failure.None? && sleeps' == r.sleeps && requested' == r.requested
  {
    sleeps', requested' := sleeps, requested;
    var dateFrom: int;
    if maintain {
      if today == 1 {
        return sleeps, requested, Some(OverflowError);
      }
      dateFrom := today - 1;
    } else {
      var localDate := RetrieveLastLocalDate();
      dateFrom := match localDate case None => EpssCrawler.FirstDay case Some(d) => d;
    }
    var actualRetries := 0;
    ghost var init := Begin(dateFrom, sleeps, requested);
    while dateFrom < today
      invariant Going(c, today, Walk(dateFrom, actualRetries, sleeps', requested'))
      invariant Loop(c, net, today, Walk(dateFrom, actualRetries, sleeps', requested')) == Loop(c, net, today, init)
      decreases today - dateFrom, c.retriesForRequest - actualRetries
    {
      ghost var cur := Walk(dateFrom, actualRetries, sleeps', requested');
      var response := net(|requested'|);
      requested' := requested' + [dateFrom];
      if response.Response? && response.status != 200 {
        if response.status == 429 || response.status == 503 {
          sleeps' := sleeps' + [c.retryInterval];
        }
        actualRetries := actualRetries + 1;
        if actualRetries == c.retriesForRequest {
          actualRetries := 0;
          dateFrom := dateFrom + 1;
        }
      } else {
        dateFrom := dateFrom + 1;
      }
      sleeps' := sleeps' + [c.intervalBetweenRequests];
      assert sleeps' == cur.sleeps + Pause(c, response);
      assert Walk(dateFrom, actualRetries, sleeps', requested') == Step(c, net, today, cur);
    }
    failure := None;
  }
}
