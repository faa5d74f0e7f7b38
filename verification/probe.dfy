/** The loop of `ping`: one attempt per sequence number, starting at 1, each
    followed by a sleep that tops the round trip up to `MAX_SLEEP`.

    The network is a list of exchanges, one per attempt: whether the socket
    opened, whether `sendto` succeeded (and when), and the select outcomes its
    receive loop sees. The loop stops when the exchanges run out, which stands
    for the keyboard interrupt, or when an exception nothing catches ends the
    program. */
module Probe {
  import opened Bytes
  import opened Results
  import opened Icmp
  import opened Receiver
  import opened Stats

  const MaxSleep := 1000
  const FirstSequence := 1

  /** The delay `ping` paces by: a timeout or failed send counts as 0. */
  function Counted(delay: Option<int>): int
  {
    match delay
    case None => 0
    case Some(d) => d
  }

  /** The bookkeeping after one iteration: the next sequence number and how
      long to sleep. */
  datatype Pacing = Pacing(nextSeq: nat, sleepMs: int)

  /** Lines 232-238: the sequence number goes up by one; the loop sleeps
      `MAX_SLEEP - delay` when that is positive and not at all otherwise, so an
      iteration's round trip plus sleep is at least `MAX_SLEEP` and the sleep
      is never negative. */
  function Pace(sequence: nat, delay: Option<int>): (p: Pacing)
    ensures p.nextSeq == sequence + 1
    ensures p.sleepMs >= 0
    ensures Counted(delay) < MaxSleep ==> p.sleepMs + Counted(delay) == MaxSleep
    ensures Counted(delay) >= MaxSleep ==> p.sleepMs == 0
  {
    var d := Counted(delay);
    Pacing(sequence + 1, if MaxSleep > d then MaxSleep - d else 0)
  }

  /** What one attempt needs from the network: whether `do_one` could open
      its raw socket, whether `sendto` succeeded (and when), and the select
      outcomes its receive loop sees. */
  datatype Exchange = Exchange(socketOpened: bool, sentAt: Option<int>, events: seq<SelectOutcome>)

  /** The state the loop carries from one iteration to the next. */
  datatype Session = Session(stats: Stats, sequence: nat, sleptMs: int)

  /** Why the loop ended other than by interruption, each an exception that
      nothing catches, so no summary is printed: creating the socket of an
      attempt failed (`do_one` re-raises it), `struct.pack` rejects a sequence
      number above 65535, `select` rejects the negative budget a negative
      timeout gives, or `struct.unpack` rejects a short datagram. The last,
      `OutOfEvents`, belongs to the model: the select outcomes of an attempt
      ran out before its wait ended. */
  datatype Halt =
    | SocketError
    | SequenceOverflow(sequence: nat)
    | NegativeTimeout(timeout: int)
    | Crash(error: DecodeError)
    | OutOfEvents

  function Start(): Session
  {
    Session(Initial(), FirstSequence, 0)
  }

  /** The attempt `do_one` makes of an exchange, or why the program stops.
      A failed send returns before the wait; otherwise the first `select` of
      the wait (line 156) raises on a negative budget. */
  function Attempted(x: Exchange, myId: u16, timeout: int): Result<Attempt, Halt>
  {
    match x.sentAt
    case None => Ok(SendFailed)
    case Some(sentAt) =>
      if timeout < 0 then Err(NegativeTimeout(timeout))
      else
        match Receive(x.events, myId, timeout)
        case Received(at, _) => Ok(Sent(sentAt, Some(at)))
        case TimedOut => Ok(Sent(sentAt, None))
        case Crashed(e) => Err(Crash(e))
        case Unfinished => Err(OutOfEvents)
  }

  /** One iteration of lines 229-238: `do_one` with the current sequence
      number, then the pacing step. `do_one` opens its socket (line 80)
      before `send_one_ping` packs the sequence number (line 124). */
  function Tick(s: Session, myId: u16, timeout: int, x: Exchange): (r: Result<Session, Halt>)
    ensures r.Ok? ==> r.value.sequence == s.sequence + 1 && r.value.sleptMs >= s.sleptMs
    ensures r.Ok? ==> r.value.stats.pktsSent == s.stats.pktsSent + (if x.sentAt.Some? then 1 else 0)
    ensures r.Ok? && Valid(s.stats) ==> Valid(r.value.stats)
    ensures !x.socketOpened <==> r == Err(SocketError)
    ensures x.socketOpened && s.sequence > 0xffff ==> r == Err(SequenceOverflow(s.sequence))
    ensures x.socketOpened && s.sequence <= 0xffff && x.sentAt.Some? && timeout < 0
            ==> r == Err(NegativeTimeout(timeout))
    ensures x.socketOpened && s.sequence <= 0xffff && x.sentAt.None? ==> r.Ok?
  {
    if !x.socketOpened then Err(SocketError)
    else if s.sequence > 0xffff then Err(SequenceOverflow(s.sequence))
    else
      match Attempted(x, myId, timeout)
      case Err(h) => Err(h)
      case Ok(a) =>
        var step := DoOne(s.stats, a);
        var p := Pace(s.sequence, step.delay);
        Ok(Session(step.stats, p.nextSeq, s.sleptMs + p.sleepMs))
  }

  /** The loop over a finite run of exchanges. */
  function Run(s: Session, myId: u16, timeout: int, xs: seq<Exchange>): Result<Session, Halt>
    decreases |xs|
  {
    if |xs| == 0 then Ok(s)
    else
      match Tick(s, myId, timeout, xs[0])
      case Err(h) => Err(h)
      case Ok(s') => Run(s', myId, timeout, xs[1..])
  }

  /** The number of exchanges whose request was sent. */
  function SentCount(xs: seq<Exchange>): nat
    decreases |xs|
  {
    if |xs| == 0 then 0 else (if xs[0].socketOpened && xs[0].sentAt.Some? then 1 else 0) + SentCount(xs[1..])
  }

  /** Across a run: the record stays valid, each iteration advances the
      sequence number by exactly one, every sent request and only those is
      counted, and the total sleep never decreases. */
  lemma {:induction false} RunInvariant(s: Session, myId: u16, timeout: int, xs: seq<Exchange>)
    requires Valid(s.stats)
    requires Run(s, myId, timeout, xs).Ok?
    ensures var s' := Run(s, myId, timeout, xs).value;
      && Valid(s'.stats)
      && s'.sequence == s.sequence + |xs|
      && s'.stats.pktsSent == s.stats.pktsSent + SentCount(xs)
      && s'.sleptMs >= s.sleptMs
    decreases |xs|
  {
    if |xs| > 0 {
      var s1 := Tick(s, myId, timeout, xs[0]).value;
      RunInvariant(s1, myId, timeout, xs[1..]);
    }
  }

  /** The exchange sent a request and its wait ended without a reply:
      `select` reported nothing ready, or foreign datagrams used up the
      budget. */
  predicate Unanswered(x: Exchange, myId: u16, timeout: int)
  {
    x.socketOpened && x.sentAt.Some? && timeout >= 0 && Receive(x.events, myId, timeout) == TimedOut
  }

  /** An unanswered iteration counts the request, records nothing and sleeps
      the whole `MAX_SLEEP`. */
  lemma TimedOutTick(s: Session, myId: u16, timeout: int, x: Exchange)
    requires Unanswered(x, myId, timeout) && s.sequence <= 0xffff
    ensures Tick(s, myId, timeout, x)
            == Ok(Session(s.stats.(pktsSent := s.stats.pktsSent + 1), s.sequence + 1, s.sleptMs + MaxSleep))
  {
    assert Attempted(x, myId, timeout) == Ok(Sent(x.sentAt.value, None));
  }

  /** If no reply ever comes, a run of N attempts (up to sequence number
      65535, the largest `struct.pack` accepts) sends N requests and receives
      none. */
  lemma {:induction false} AllTimeouts(s: Session, myId: u16, timeout: int, xs: seq<Exchange>)
    requires Valid(s.stats) && s.stats.pktsRcvd == 0
    requires s.sequence + |xs| <= 0x1_0000
    requires forall i :: 0 <= i < |xs| ==> Unanswered(xs[i], myId, timeout)
    ensures Run(s, myId, timeout, xs).Ok?
    ensures var s' := Run(s, myId, timeout, xs).value;
      && s'.stats.pktsSent == s.stats.pktsSent + |xs|
      && s'.stats.pktsRcvd == 0
      && s'.stats.delayList == []
      && s'.sleptMs == s.sleptMs + |xs| * MaxSleep
    decreases |xs|
  {
    if |xs| > 0 {
      TimedOutTick(s, myId, timeout, xs[0]);
      var s1 := Tick(s, myId, timeout, xs[0]).value;
      assert Run(s, myId, timeout, xs) == Run(s1, myId, timeout, xs[1..]);
      forall i | 0 <= i < |xs| - 1
        ensures Unanswered(xs[1..][i], myId, timeout)
      {
        assert xs[1..][i] == xs[i + 1];
      }
      AllTimeouts(s1, myId, timeout, xs[1..]);
      MultiplyOut(|xs|, MaxSleep);
    }
  }

  /** The summary of a session in which nothing was answered. */
  lemma NoRepliesSummary(myId: u16, timeout: int, xs: seq<Exchange>, startTime: int, endTime: int)
    requires |xs| <= 0xffff
    requires forall i :: 0 <= i < |xs| ==> Unanswered(xs[i], myId, timeout)
    ensures Run(Start(), myId, timeout, xs).Ok?
    ensures var sum := DumpStats(Run(Start(), myId, timeout, xs).value.stats, startTime, endTime);
      && sum.transmitted == |xs| && sum.received == 0 && sum.latency.None? && sum.fracLoss == 1.0
  {
    AllTimeouts(Start(), myId, timeout, xs);
    RunInvariant(Start(), myId, timeout, xs);
    LossFraction(Run(Start(), myId, timeout, xs).value.stats, startTime, endTime);
  }

  /** Running two lists of exchanges one after the other is running their
      concatenation; a halt in the first ends the whole run. */
  lemma {:induction false} RunAppend(s: Session, myId: u16, timeout: int, xs: seq<Exchange>, ys: seq<Exchange>)
    ensures Run(s, myId, timeout, xs + ys)
            == if Run(s, myId, timeout, xs).Ok? then Run(Run(s, myId, timeout, xs).value, myId, timeout, ys)
               else Run(s, myId, timeout, xs)
    decreases |xs|
  {
    if |xs| == 0 {
      assert xs + ys == ys;
    } else {
      assert (xs + ys)[0] == xs[0] && (xs + ys)[1..] == xs[1..] + ys;
      if Tick(s, myId, timeout, xs[0]).Ok? {
        RunAppend(Tick(s, myId, timeout, xs[0]).value, myId, timeout, xs[1..], ys);
      }
    }
  }

  /** Starting from sequence 1, after 65535 completed iterations the next
      attempt that opens its socket stops the program: `struct.pack` rejects
      sequence number 65536. */
  lemma OverflowHalts(myId: u16, timeout: int, xs: seq<Exchange>, x: Exchange)
    requires |xs| == 0xffff && Run(Start(), myId, timeout, xs).Ok? && x.socketOpened
    ensures Run(Start(), myId, timeout, xs + [x]) == Err(SequenceOverflow(0x1_0000))
  {
    RunInvariant(Start(), myId, timeout, xs);
    RunAppend(Start(), myId, timeout, xs, [x]);
    assert Run(Start(), myId, timeout, xs).value.sequence == 0x1_0000;
  }

  /** The exchange sent a request and its first `select` round delivered a
      well-formed datagram with our identifier, `rtt` ms after the send. */
  predicate AnsweredIn(x: Exchange, myId: u16, rtt: int)
  {
    && x.socketOpened && x.sentAt.Some? && |x.events| > 0 && x.events[0].Ready?
    && x.events[0].receivedAt == x.sentAt.value + rtt
    && DecodeReply(x.events[0].packet).Ok?
    && DecodeReply(x.events[0].packet).value.icmp.identifier == myId
  }

  /** An answered iteration records a delay of `rtt` and sleeps for the rest
      of `MAX_SLEEP`. */
  lemma AnsweredTick(s: Session, myId: u16, timeout: int, rtt: int, x: Exchange)
    requires s.sequence <= 0xffff && timeout >= 0 && rtt < MaxSleep && AnsweredIn(x, myId, rtt)
    ensures Tick(s, myId, timeout, x)
            == Ok(Session(DoOne(s.stats, Sent(0, Some(rtt))).stats, s.sequence + 1, s.sleptMs + MaxSleep - rtt))
  {
    assert Attempted(x, myId, timeout) == Ok(Sent(x.sentAt.value, Some(x.sentAt.value + rtt)));
  }

  /** `n` delays of `d` milliseconds each. */
  function Repeat(n: nat, d: int): (ds: seq<int>)
    ensures |ds| == n && forall i :: 0 <= i < n ==> ds[i] == d
  {
    seq(n, _ => d)
  }

  /** The record after a reply in `rtt` ms, field by field. */
  lemma AnsweredStats(st: Stats, rtt: int)
    ensures DoOne(st, Sent(0, Some(rtt))).stats
            == Stats(st.pktsSent + 1, st.pktsRcvd + 1, if st.minTime > rtt then rtt else st.minTime,
                     if st.maxTime < rtt then rtt else st.maxTime, st.totTime + rtt, st.delayList + [rtt])
  {
  }

  lemma RepeatCons(ds: seq<int>, n: nat, d: int)
    ensures ds + [d] + Repeat(n, d) == ds + Repeat(n + 1, d)
  {
    assert [d] + Repeat(n, d) == Repeat(n + 1, d);
  }

  lemma MultiplyOut(n: nat, a: int)
    requires n > 0
    ensures n * a == a + (n - 1) * a
  {
  }

  /** When every request is answered after the same `rtt` ms, each attempt
      is counted sent and received, records `rtt`, moves the extremes towards
      it, and sleeps `MAX_SLEEP - rtt`. */
  lemma {:induction false} AnsweredRun(s: Session, myId: u16, timeout: int, rtt: int, xs: seq<Exchange>)
    requires timeout >= 0 && 0 <= rtt < MaxSleep && s.sequence + |xs| <= 0x1_0000
    requires forall i :: 0 <= i < |xs| ==> AnsweredIn(xs[i], myId, rtt)
    ensures Run(s, myId, timeout, xs).Ok?
    ensures var s' := Run(s, myId, timeout, xs).value;
      && s'.stats.pktsSent == s.stats.pktsSent + |xs|
      && s'.stats.pktsRcvd == s.stats.pktsRcvd + |xs|
      && s'.stats.totTime == s.stats.totTime + |xs| * rtt
      && s'.stats.delayList == s.stats.delayList + Repeat(|xs|, rtt)
      && s'.stats.minTime == (if |xs| > 0 && s.stats.minTime > rtt then rtt else s.stats.minTime)
      && s'.stats.maxTime == (if |xs| > 0 && s.stats.maxTime < rtt then rtt else s.stats.maxTime)
      && s'.sequence == s.sequence + |xs|
      && s'.sleptMs == s.sleptMs + |xs| * (MaxSleep - rtt)
    decreases |xs|
  {
    if |xs| == 0 {
      assert s.stats.delayList + Repeat(0, rtt) == s.stats.delayList;
    } else {
      AnsweredTick(s, myId, timeout, rtt, xs[0]);
      var s1 := Tick(s, myId, timeout, xs[0]).value;
      AnsweredStats(s.stats, rtt);
      assert Run(s, myId, timeout, xs) == Run(s1, myId, timeout, xs[1..]);
      forall i | 0 <= i < |xs| - 1
        ensures AnsweredIn(xs[1..][i], myId, rtt)
      {
        assert xs[1..][i] == xs[i + 1];
      }
      AnsweredRun(s1, myId, timeout, rtt, xs[1..]);
      RepeatCons(s.stats.delayList, |xs| - 1, rtt);
      MultiplyOut(|xs|, rtt);
      MultiplyOut(|xs|, MaxSleep - rtt);
    }
  }

  /** An exchange answered by an Echo Reply carrying our identifier and the
      given sequence number, `rtt` milliseconds after the request left. */
  function AnsweredExchange(ip: IpHeader, myId: u16, sequence: u16, sentAt: int, rtt: int): (x: Exchange)
    ensures AnsweredIn(x, myId, rtt)
  {
    var reply := IcmpHeader(IcmpEchoReply, 0, 0, myId, sequence);
    DecodeReplyRoundTrip(ip, reply, PadBytes(56));
    Exchange(true, Some(sentAt), [Ready(rtt, sentAt + rtt, EncodeIpHeader(ip) + EncodeIcmpHeader(reply) + PadBytes(56))])
  }

  /** Four requests, each answered after 5 ms, one second apart. */
  function FourAnswered(ip: IpHeader, myId: u16): (xs: seq<Exchange>)
    ensures |xs| == 4 && forall i :: 0 <= i < 4 ==> AnsweredIn(xs[i], myId, 5)
  {
    [AnsweredExchange(ip, myId, 1, 0, 5), AnsweredExchange(ip, myId, 2, 1000, 5),
     AnsweredExchange(ip, myId, 3, 2000, 5), AnsweredExchange(ip, myId, 4, 3000, 5)]
  }

  /** Four requests each answered after 5 ms: four sent, four received, no
      loss, and minimum, maximum and mean all 5 ms. */
  lemma FourRepliesScenario(ip: IpHeader, myId: u16, timeout: int, startTime: int, endTime: int)
    requires timeout >= 0
    ensures Run(Start(), myId, timeout, FourAnswered(ip, myId)).Ok?
    ensures DumpStats(Run(Start(), myId, timeout, FourAnswered(ip, myId)).value.stats, startTime, endTime)
            == Summary(4, 4, 0.0, endTime - startTime + 3000, Some(Latency(5, 5, 5.0)))
  {
    var xs := FourAnswered(ip, myId);
    AnsweredRun(Start(), myId, timeout, 5, xs);
    var st := Run(Start(), myId, timeout, xs).value.stats;
    assert st.pktsSent == 4 && st.pktsRcvd == 4 && st.minTime == 5 && st.maxTime == 5 && st.totTime == 20;
    FourRepliesSummary(st, startTime, endTime);
  }

  lemma FourRepliesSummary(st: Stats, startTime: int, endTime: int)
    requires st.pktsSent == 4 && st.pktsRcvd == 4 && st.minTime == 5 && st.maxTime == 5 && st.totTime == 20
    ensures DumpStats(st, startTime, endTime) == Summary(4, 4, 0.0, endTime - startTime + 3000, Some(Latency(5, 5, 5.0)))
  {
    assert 20 as real / 4 as real == 5.0;
  }
}
