/** The session statistics of ping.py: the counters and running extremes that
    `do_one` updates after every attempt, and the summary `dump_stats` derives
    from them. Delays are integer milliseconds. */
module Stats {
  import opened Results

  /** The initial `minTime`, standing for "no minimum yet". */
  const NoMinimum := 999999999

  /** The gap `dump_stats` assumes between consecutive pings. */
  const PingGapMs := 1000

  /** A fresh `MyStats` record (host name and address left out). */
  datatype Stats = Stats(pktsSent: nat, pktsRcvd: nat, minTime: int, maxTime: int, totTime: int, delayList: seq<int>)

  function Initial(): Stats
  {
    Stats(0, 0, NoMinimum, 0, 0, [])
  }

  /** The sum of the delays. */
  function Sum(ds: seq<int>): int
    decreases |ds|
  {
    if |ds| == 0 then 0 else Sum(ds[..|ds| - 1]) + ds[|ds| - 1]
  }

  /** The least of `start` and the delays. */
  function MinOf(start: int, ds: seq<int>): int
    decreases |ds|
  {
    if |ds| == 0 then start
    else
      var m := MinOf(start, ds[..|ds| - 1]);
      if ds[|ds| - 1] < m then ds[|ds| - 1] else m
  }

  /** The greatest of `start` and the delays. */
  function MaxOf(start: int, ds: seq<int>): int
    decreases |ds|
  {
    if |ds| == 0 then start
    else
      var m := MaxOf(start, ds[..|ds| - 1]);
      if ds[|ds| - 1] > m then ds[|ds| - 1] else m
  }

  /** What the record means: one delay per reply, never more replies than
      requests sent, and the total and extremes are those of the delays, the
      extremes starting from the initial `minTime` and `maxTime`. */
  predicate Valid(st: Stats)
  {
    && st.pktsRcvd <= st.pktsSent
    && |st.delayList| == st.pktsRcvd
    && st.totTime == Sum(st.delayList)
    && st.minTime == MinOf(NoMinimum, st.delayList)
    && st.maxTime == MaxOf(0, st.delayList)
  }

  /** One attempt as `do_one` sees it: `send_one_ping` returned nothing
      (`sendto` failed), or it returned the send time and the receive loop
      returned a reception time or timed out. */
  datatype Attempt = SendFailed | Sent(sentAt: int, receivedAt: Option<int>)

  /** The record after an attempt, and the delay `do_one` returns. */
  datatype Step = Step(stats: Stats, delay: Option<int>)

  /** `do_one` (lines 87-111): a failed send returns before the request is
      counted; a sent request is counted; a reply appends its delay and updates
      the received count, the total and the extremes. */
  function DoOne(st: Stats, a: Attempt): (r: Step)
    ensures a.SendFailed? ==> r == Step(st, None)
    ensures a.Sent? ==> r.stats.pktsSent == st.pktsSent + 1
    ensures r.delay.Some? <==> a.Sent? && a.receivedAt.Some?
    ensures r.delay.Some? ==> && r.delay.value == a.receivedAt.value - a.sentAt
                              && r.stats.pktsRcvd == st.pktsRcvd + 1
                              && r.stats.delayList == st.delayList + [r.delay.value]
    ensures r.delay.None? ==> r.stats.pktsRcvd == st.pktsRcvd && r.stats.delayList == st.delayList
    ensures Valid(st) ==> Valid(r.stats)
  {
    match a
    case SendFailed => Step(st, None)
    case Sent(_, None) => Step(st.(pktsSent := st.pktsSent + 1), None)
    case Sent(sentAt, Some(receivedAt)) =>
      var delay := receivedAt - sentAt;
      var ds := st.delayList + [delay];
      assert ds[..|ds| - 1] == st.delayList;
      var st' := Stats(
        st.pktsSent + 1,
        st.pktsRcvd + 1,
        if st.minTime > delay then delay else st.minTime,
        if st.maxTime < delay then delay else st.maxTime,
        st.totTime + delay,
        ds);
      Step(st', Some(delay))
  }

  /** Every recorded delay lies between `minTime` and `maxTime`. */
  lemma {:induction false} DelaysWithinExtremes(start: int, ds: seq<int>)
    ensures forall i :: 0 <= i < |ds| ==> MinOf(start, ds) <= ds[i] <= MaxOf(start, ds)
    ensures MinOf(start, ds) <= start <= MaxOf(start, ds)
    decreases |ds|
  {
    if |ds| > 0 {
      var init := ds[..|ds| - 1];
      DelaysWithinExtremes(start, init);
      forall i | 0 <= i < |ds| - 1
        ensures ds[i] == init[i]
      {
      }
    }
  }

  /** `MinOf` and `MaxOf` are attained: each is the start value or one of the
      delays. */
  lemma {:induction false} ExtremesAttained(start: int, ds: seq<int>)
    ensures MinOf(start, ds) == start || exists i :: 0 <= i < |ds| && ds[i] == MinOf(start, ds)
    ensures MaxOf(start, ds) == start || exists i :: 0 <= i < |ds| && ds[i] == MaxOf(start, ds)
    decreases |ds|
  {
    if |ds| > 0 {
      var init := ds[..|ds| - 1];
      ExtremesAttained(start, init);
      if MinOf(start, ds) != start && MinOf(start, ds) != ds[|ds| - 1] {
        var i :| 0 <= i < |init| && init[i] == MinOf(start, init);
        assert ds[i] == init[i];
      }
      if MaxOf(start, ds) != start && MaxOf(start, ds) != ds[|ds| - 1] {
        var i :| 0 <= i < |init| && init[i] == MaxOf(start, init);
        assert ds[i] == init[i];
      }
    }
  }

  /** In a valid record `minTime` and `maxTime` bound every delay, and when
      replies were received and every delay is below the initial `minTime`
      and not negative, they are the least and the greatest delay. */
  lemma ExtremesOfValid(st: Stats)
    requires Valid(st)
    ensures forall i :: 0 <= i < |st.delayList| ==> st.minTime <= st.delayList[i] <= st.maxTime
    ensures st.pktsRcvd > 0 && (forall i :: 0 <= i < |st.delayList| ==> 0 <= st.delayList[i] < NoMinimum) ==>
              (exists i :: 0 <= i < |st.delayList| && st.delayList[i] == st.minTime)
              && (exists j :: 0 <= j < |st.delayList| && st.delayList[j] == st.maxTime)
  {
    DelaysWithinExtremes(NoMinimum, st.delayList);
    DelaysWithinExtremes(0, st.delayList);
    ExtremesAttained(NoMinimum, st.delayList);
    ExtremesAttained(0, st.delayList);
  }

  /** The sum of delays bounded by lo and hi lies between |ds| * lo and
      |ds| * hi. */
  lemma {:induction false} SumBounds(ds: seq<int>, lo: int, hi: int)
    requires forall i :: 0 <= i < |ds| ==> lo <= ds[i] <= hi
    ensures |ds| * lo <= Sum(ds) <= |ds| * hi
    decreases |ds|
  {
    if |ds| > 0 {
      var init := ds[..|ds| - 1];
      forall i | 0 <= i < |init|
        ensures lo <= init[i] <= hi
      {
        assert init[i] == ds[i];
      }
      SumBounds(init, lo, hi);
      assert |ds| * lo == |init| * lo + lo;
      assert |ds| * hi == |init| * hi + hi;
    }
  }

  // ---------------------------------------------------------------------
  // Summary
  // ---------------------------------------------------------------------

  /** The round-trip block: minimum, maximum and mean delay. */
  datatype Latency = Latency(minimum: int, maximum: int, average: real)

  /** The figures `dump_stats` prints. */
  datatype Summary = Summary(transmitted: nat, received: nat, fracLoss: real, timeMs: int, latency: Option<Latency>)

  /** Integer division truncating toward zero, as Python's `%d` turns a float
      into an integer. */
  function TruncDiv(num: int, den: int): (q: int)
    requires den > 0
    ensures num >= 0 ==> q * den <= num < q * den + den
    ensures num < 0 ==> q * den - den < num <= q * den
  {
    if num >= 0 then num / den else -((-num) / den)
  }

  /** The time figure of line 198 as written. `startTime` and `endTime` are
      `time.time()` readings in SECONDS, while the gaps are in milliseconds;
      the mixed sum is printed with `%d` and labelled "ms". With the clock
      given in milliseconds, the elapsed part is (endMs - startMs) / 1000. */
  function PrintedTimeAsWritten(pktsSent: nat, startMs: int, endMs: int): int
  {
    TruncDiv((endMs - startMs) + (pktsSent - 1) * PingGapMs * 1000, 1000)
  }

  /** The time figure with both terms in milliseconds: the measured duration
      plus one gap per ping after the first. */
  function ReportedTimeMs(pktsSent: nat, startMs: int, endMs: int): int
  {
    (endMs - startMs) + (pktsSent - 1) * PingGapMs
  }

  /** As written, a session of at least one ping prints its elapsed time
      truncated to whole SECONDS plus the gaps in milliseconds. */
  lemma AsWrittenTimeMixesUnits(pktsSent: nat, startMs: int, endMs: int)
    requires pktsSent >= 1 && endMs >= startMs
    ensures PrintedTimeAsWritten(pktsSent, startMs, endMs)
            == (endMs - startMs) / 1000 + (pktsSent - 1) * PingGapMs
  {
    var e := endMs - startMs;
    var g := (pktsSent - 1) * PingGapMs;
    assert e + g * 1000 == (e / 1000 + g) * 1000 + e % 1000;
  }

  /** The printed figure can be far below the time the session took: one
      ping over 3000 ms prints 3, and four pings over 3000 ms print 3003
      where the milliseconds add up to 6000. */
  lemma AsWrittenTimeUndercounts()
    ensures PrintedTimeAsWritten(1, 0, 3000) == 3 && ReportedTimeMs(1, 0, 3000) == 3000
    ensures PrintedTimeAsWritten(4, 0, 3000) == 3003 && ReportedTimeMs(4, 0, 3000) == 6000
  {
    AsWrittenTimeMixesUnits(1, 0, 3000);
    AsWrittenTimeMixesUnits(4, 0, 3000);
  }

  /** With consistent units the reported time never falls below the measured
      duration once a ping was sent, grows by exactly one gap per further
      ping, and is one gap shorter than the duration when nothing was sent. */
  lemma ReportedTimeCovers(pktsSent: nat, startMs: int, endMs: int)
    ensures pktsSent >= 1 ==> ReportedTimeMs(pktsSent, startMs, endMs) >= endMs - startMs
    ensures ReportedTimeMs(pktsSent + 1, startMs, endMs) == ReportedTimeMs(pktsSent, startMs, endMs) + PingGapMs
    ensures ReportedTimeMs(0, startMs, endMs) == endMs - startMs - PingGapMs
  {
  }

  /** `dump_stats` (lines 195-202): the loss fraction is recomputed only when
      something was sent (otherwise it keeps its initial 1.0), the reported
      time adds one gap per ping after the first to the measured duration
      (in milliseconds; see `PrintedTimeAsWritten` for the line as written),
      and the latency block appears only when a reply was received. */
  function DumpStats(st: Stats, startTime: int, endTime: int): Summary
  {
    var fracLoss := if st.pktsSent > 0 then (st.pktsSent - st.pktsRcvd) as real / st.pktsSent as real else 1.0;
    var latency :=
      if st.pktsRcvd > 0 then Some(Latency(st.minTime, st.maxTime, st.totTime as real / st.pktsRcvd as real))
      else None;
    Summary(st.pktsSent, st.pktsRcvd, fracLoss, ReportedTimeMs(st.pktsSent, startTime, endTime), latency)
  }

  /** The loss fraction lies in [0, 1]; it is 0 exactly when every request
      got a reply and 1 exactly when none did (or nothing was sent). */
  lemma LossFraction(st: Stats, startTime: int, endTime: int)
    requires Valid(st)
    ensures var s := DumpStats(st, startTime, endTime);
      && s.transmitted == st.pktsSent && s.received == st.pktsRcvd
      && 0.0 <= s.fracLoss <= 1.0
      && (st.pktsSent > 0 ==> (s.fracLoss == 0.0 <==> st.pktsRcvd == st.pktsSent))
      && (s.fracLoss == 1.0 <==> st.pktsRcvd == 0)
      && (st.pktsSent >= 1 ==> s.timeMs >= endTime - startTime)
      && s.timeMs == endTime - startTime + (st.pktsSent - 1) * PingGapMs
  {
    var s := DumpStats(st, startTime, endTime);
    if st.pktsSent > 0 {
      var sent := st.pktsSent as real;
      var lost := (st.pktsSent - st.pktsRcvd) as real;
      RatioFacts(lost, sent);
    }
  }

  lemma RatioFacts(lost: real, sent: real)
    requires 0.0 <= lost <= sent && sent > 0.0
    ensures 0.0 <= lost / sent <= 1.0
    ensures lost / sent == 0.0 <==> lost == 0.0
    ensures lost / sent == 1.0 <==> lost == sent
  {
    assert (lost / sent) * sent == lost;
  }

  /** The latency block is present exactly when a reply was received; its
      minimum and maximum are the record's, and its mean lies between them
      and, times the reply count, gives the sum of the delays. */
  lemma LatencyBlock(st: Stats, startTime: int, endTime: int)
    requires Valid(st)
    ensures var s := DumpStats(st, startTime, endTime);
      && (s.latency.Some? <==> st.pktsRcvd > 0)
      && (s.latency.Some? ==>
            && s.latency.value.minimum == st.minTime && s.latency.value.maximum == st.maxTime
            && s.latency.value.minimum as real <= s.latency.value.average <= s.latency.value.maximum as real
            && s.latency.value.average * st.pktsRcvd as real == Sum(st.delayList) as real)
  {
    var s := DumpStats(st, startTime, endTime);
    if st.pktsRcvd > 0 {
      var avg := st.totTime as real / st.pktsRcvd as real;
      assert s.latency == Some(Latency(st.minTime, st.maxTime, avg));
      MeanOfValid(st);
    } else {
      assert s.latency == None;
    }
  }

  lemma MeanOfValid(st: Stats)
    requires Valid(st) && st.pktsRcvd > 0
    ensures st.minTime as real <= st.totTime as real / st.pktsRcvd as real <= st.maxTime as real
    ensures (st.totTime as real / st.pktsRcvd as real) * st.pktsRcvd as real == st.totTime as real
  {
    TotalBetween(st);
    var n := st.pktsRcvd;
    ProductAsReal(n, st.minTime);
    ProductAsReal(n, st.maxTime);
    MeanBetween(st.totTime as real, n as real, st.minTime as real, st.maxTime as real);
  }

  /** The total of a valid record lies between `pktsRcvd` times the minimum
      and `pktsRcvd` times the maximum. */
  lemma TotalBetween(st: Stats)
    requires Valid(st)
    ensures st.pktsRcvd * st.minTime <= st.totTime <= st.pktsRcvd * st.maxTime
  {
    ExtremesOfValid(st);
    SumBounds(st.delayList, st.minTime, st.maxTime);
  }

  lemma ProductAsReal(n: int, m: int)
    ensures (n * m) as real == n as real * m as real
  {
  }

  lemma MeanBetween(total: real, n: real, lo: real, hi: real)
    requires n > 0.0 && n * lo <= total <= n * hi
    ensures lo <= total / n <= hi
    ensures (total / n) * n == total
  {
  }
}
