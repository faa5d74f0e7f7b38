/** The wait loop of `receive_one_ping`: wait for the socket with the remaining
    budget, read a datagram, return it if it carries our identifier, and
    otherwise charge the time spent waiting to the budget and wait again.

    `select` and `recvfrom` are replaced by a finite list of outcomes, each
    saying how long the wait took and, when the socket became readable, the
    time of reception and the datagram read. Times are integer milliseconds. */
module Receiver {
  import opened Bytes
  import opened Results
  import opened Icmp

  /** One round of `select`: nothing ready within the budget, or a datagram. */
  datatype SelectOutcome =
    | Idle(waited: int)
    | Ready(waited: int, receivedAt: int, packet: seq<byte>)

  /** What `receive_one_ping` ends with. `Crashed` is `struct.unpack` raising on
      a short datagram (nothing catches it); `Unfinished` means the outcomes ran
      out before the loop decided. */
  datatype RecvResult =
    | Received(receivedAt: int, reply: EchoReply)
    | TimedOut
    | Crashed(error: DecodeError)
    | Unfinished

  /** The loop of lines 154-184, starting with `timeLeft` milliseconds. */
  function Receive(events: seq<SelectOutcome>, myId: u16, timeLeft: int): (r: RecvResult)
    ensures r.Received? ==> r.reply.icmp.identifier == myId
    decreases |events|
  {
    if |events| == 0 then Unfinished
    else
      match events[0]
      case Idle(_) => TimedOut
      case Ready(waited, at, packet) =>
        match DecodeReply(packet)
        case Err(e) => Crashed(e)
        case Ok(reply) =>
          if reply.icmp.identifier == myId then Received(at, reply)
          else if timeLeft - waited <= 0 then TimedOut
          else Receive(events[1..], myId, timeLeft - waited)
  }

  /** The budget left after the first k rounds, each charged its waiting time. */
  function BudgetAfter(events: seq<SelectOutcome>, timeLeft: int, k: nat): int
    requires k <= |events|
    decreases k
  {
    if k == 0 then timeLeft
    else BudgetAfter(events[1..], timeLeft - events[0].waited, k - 1)
  }

  /** Round i delivered a well-formed datagram with another identifier and left
      a positive budget, so the loop went on waiting. */
  ghost predicate ForeignAt(events: seq<SelectOutcome>, myId: u16, timeLeft: int, i: nat)
    requires i < |events|
  {
    && events[i].Ready?
    && DecodeReply(events[i].packet).Ok?
    && DecodeReply(events[i].packet).value.icmp.identifier != myId
    && BudgetAfter(events, timeLeft, i + 1) > 0
  }

  /** Round k delivered a well-formed datagram with our identifier. */
  ghost predicate OursAt(events: seq<SelectOutcome>, myId: u16, k: nat)
    requires k < |events|
  {
    && events[k].Ready?
    && DecodeReply(events[k].packet).Ok?
    && DecodeReply(events[k].packet).value.icmp.identifier == myId
  }

  ghost predicate ForeignPrefix(events: seq<SelectOutcome>, myId: u16, timeLeft: int, k: nat)
    requires k <= |events|
  {
    forall i :: 0 <= i < k ==> ForeignAt(events, myId, timeLeft, i)
  }

  /** Shifting past a foreign first round: the rest is judged from the budget
      that round left. */
  lemma ForeignShift(events: seq<SelectOutcome>, myId: u16, timeLeft: int, k: nat)
    requires 1 <= k <= |events|
    ensures ForeignPrefix(events, myId, timeLeft, k) <==>
            ForeignAt(events, myId, timeLeft, 0)
            && ForeignPrefix(events[1..], myId, timeLeft - events[0].waited, k - 1)
  {
    var rest := events[1..];
    var t' := timeLeft - events[0].waited;
    forall i | 1 <= i < k
      ensures ForeignAt(events, myId, timeLeft, i) <==> ForeignAt(rest, myId, t', i - 1)
    {
      assert events[i] == rest[i - 1];
    }
    if ForeignAt(events, myId, timeLeft, 0) && ForeignPrefix(rest, myId, t', k - 1) {
      forall i | 0 <= i < k
        ensures ForeignAt(events, myId, timeLeft, i)
      {
        if i > 0 {
          assert ForeignAt(rest, myId, t', i - 1);
        }
      }
    }
    if ForeignPrefix(events, myId, timeLeft, k) {
      forall i | 0 <= i < k - 1
        ensures ForeignAt(rest, myId, t', i)
      {
        assert ForeignAt(events, myId, timeLeft, i + 1);
      }
    }
  }

  /** Soundness: a returned reply comes from a round k that delivered our
      identifier after rounds that were all foreign and left budget. */
  lemma {:induction false} ReceivedSound(events: seq<SelectOutcome>, myId: u16, timeLeft: int)
    requires Receive(events, myId, timeLeft).Received?
    ensures exists k :: && 0 <= k < |events| && ForeignPrefix(events, myId, timeLeft, k) && OursAt(events, myId, k)
                        && Receive(events, myId, timeLeft).receivedAt == events[k].receivedAt
                        && Receive(events, myId, timeLeft).reply == DecodeReply(events[k].packet).value
    decreases |events|
  {
    var r := Receive(events, myId, timeLeft);
    if OursAt(events, myId, 0) {
      assert ForeignPrefix(events, myId, timeLeft, 0);
    } else {
      var rest := events[1..];
      var t' := timeLeft - events[0].waited;
      assert ForeignAt(events, myId, timeLeft, 0);
      assert r == Receive(rest, myId, t');
      ReceivedSound(rest, myId, t');
      var k :| && 0 <= k < |rest| && ForeignPrefix(rest, myId, t', k) && OursAt(rest, myId, k)
               && r.receivedAt == rest[k].receivedAt && r.reply == DecodeReply(rest[k].packet).value;
      ForeignShift(events, myId, timeLeft, k + 1);
      assert events[k + 1] == rest[k];
      assert OursAt(events, myId, k + 1);
    }
  }

  /** Completeness: if round k delivered our identifier after rounds that were
      all foreign and left budget, the loop returns that round's reply. */
  lemma {:induction false} ReceivedComplete(events: seq<SelectOutcome>, myId: u16, timeLeft: int, k: nat)
    requires k < |events| && ForeignPrefix(events, myId, timeLeft, k) && OursAt(events, myId, k)
    ensures Receive(events, myId, timeLeft) == Received(events[k].receivedAt, DecodeReply(events[k].packet).value)
    decreases k
  {
    if k > 0 {
      var rest := events[1..];
      var t' := timeLeft - events[0].waited;
      ForeignShift(events, myId, timeLeft, k);
      assert ForeignAt(events, myId, timeLeft, 0);
      assert events[k] == rest[k - 1];
      ReceivedComplete(rest, myId, t', k - 1);
    }
  }

  /** The loop returns a reply exactly when some round delivered our identifier
      after rounds that were all foreign and left budget. */
  lemma ReceivedIff(events: seq<SelectOutcome>, myId: u16, timeLeft: int)
    ensures Receive(events, myId, timeLeft).Received? <==>
            exists k :: 0 <= k < |events| && ForeignPrefix(events, myId, timeLeft, k) && OursAt(events, myId, k)
  {
    if Receive(events, myId, timeLeft).Received? {
      ReceivedSound(events, myId, timeLeft);
    }
    if k :| 0 <= k < |events| && ForeignPrefix(events, myId, timeLeft, k) && OursAt(events, myId, k) {
      ReceivedComplete(events, myId, timeLeft, k);
    }
  }

  /** Round k ended the wait without a reply: `select` reported nothing ready,
      or a well-formed foreign datagram used up the budget. */
  ghost predicate TimeoutAt(events: seq<SelectOutcome>, myId: u16, timeLeft: int, k: nat)
    requires k < |events|
  {
    || events[k].Idle?
    || (&& DecodeReply(events[k].packet).Ok?
        && DecodeReply(events[k].packet).value.icmp.identifier != myId
        && BudgetAfter(events, timeLeft, k + 1) <= 0)
  }

  /** The loop times out exactly when some round ended the wait after rounds
      that were all foreign and left budget. */
  lemma {:induction false} TimedOutIff(events: seq<SelectOutcome>, myId: u16, timeLeft: int)
    ensures Receive(events, myId, timeLeft) == TimedOut <==>
            exists k :: 0 <= k < |events| && ForeignPrefix(events, myId, timeLeft, k) && TimeoutAt(events, myId, timeLeft, k)
    decreases |events|
  {
    if |events| == 0 {
      return;
    }
    var rest := events[1..];
    var t' := timeLeft - events[0].waited;
    if TimeoutAt(events, myId, timeLeft, 0) {
      assert ForeignPrefix(events, myId, timeLeft, 0);
    } else if ForeignAt(events, myId, timeLeft, 0) {
      TimedOutIff(rest, myId, t');
      assert Receive(events, myId, timeLeft) == Receive(rest, myId, t');
      if k :| 0 <= k < |rest| && ForeignPrefix(rest, myId, t', k) && TimeoutAt(rest, myId, t', k) {
        ForeignShift(events, myId, timeLeft, k + 1);
        assert events[k + 1] == rest[k];
        assert TimeoutAt(events, myId, timeLeft, k + 1);
      }
      if k :| 0 <= k < |events| && ForeignPrefix(events, myId, timeLeft, k) && TimeoutAt(events, myId, timeLeft, k) {
        ForeignShift(events, myId, timeLeft, k);
        assert events[k] == rest[k - 1];
        assert TimeoutAt(rest, myId, t', k - 1);
      }
    } else {
      assert Receive(events, myId, timeLeft) != TimedOut;
      forall k | 0 < k < |events|
        ensures !ForeignPrefix(events, myId, timeLeft, k)
      {
        assert !ForeignAt(events, myId, timeLeft, 0);
      }
    }
  }

  /** After a foreign datagram the loop goes on with the budget reduced by
      exactly the time spent waiting, or times out once that leaves nothing. */
  lemma ForeignCharged(events: seq<SelectOutcome>, myId: u16, timeLeft: int)
    requires |events| > 0 && events[0].Ready?
    requires DecodeReply(events[0].packet).Ok?
    requires DecodeReply(events[0].packet).value.icmp.identifier != myId
    ensures timeLeft - events[0].waited <= 0 ==> Receive(events, myId, timeLeft) == TimedOut
    ensures timeLeft - events[0].waited > 0 ==>
              Receive(events, myId, timeLeft) == Receive(events[1..], myId, timeLeft - events[0].waited)
  {
  }

  /** `receive_one_ping` as a loop over the select outcomes; the timeout is in
      milliseconds, as the caller passes it. */
  method ReceiveOnePing(events: seq<SelectOutcome>, myId: u16, timeout: int) returns (r: RecvResult)
    requires timeout >= 0
    ensures r == Receive(events, myId, timeout)
    ensures r.Received? ==> r.reply.icmp.identifier == myId
  {
    var timeLeft := timeout;
    var i := 0;
    while i < |events|
      invariant 0 <= i <= |events|
      invariant Receive(events[i..], myId, timeLeft) == Receive(events, myId, timeout)
      decreases |events| - i
    {
      var e := events[i];
      assert events[i..][1..] == events[i + 1..];
      if e.Idle? {
        return TimedOut;
      }
      var decoded := DecodeReply(e.packet);
      if decoded.Err? {
        return Crashed(decoded.error);
      }
      if decoded.value.icmp.identifier == myId {
        return Received(e.receivedAt, decoded.value);
      }
      timeLeft := timeLeft - e.waited;
      if timeLeft <= 0 {
        return TimedOut;
      }
      i := i + 1;
    }
    return Unfinished;
  }
}
