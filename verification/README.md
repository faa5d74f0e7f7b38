# ICMP Echo ("ping") probe — a verified model

This project models the protocol and bookkeeping core of `ping.py`, a Python
ICMP Echo client, in Dafny. The model covers six pieces:

- **Checksum**: the Internet checksum of `checksum`. The source pairs bytes into host-order
  16-bit words and adds a trailing odd byte on its own. It truncates the sum to 32 bits, folds
  the carries twice, complements the result and converts it with `htons`. The model covers both
  host byte orders. It is compared with an independently defined reference, called "the
  RFC 1071 checksum" below: the one's complement of the one's-complement sum of network-order
  16-bit words (section 1 of RFC 1071), with an odd length padded at the end by one zero octet,
  as the Echo message of RFC 792 prescribes.
- **Echo Request encoder**: the pure part of `send_one_ping`. The header is type 8, code 0,
  checksum, identifier and sequence, in network order. Payload byte i is `(0x42 + i) mod 256`.
  The checksum is computed over the header with a zero checksum field plus the payload, then
  patched into the header.
- **Reply decoder**: the parse in `receive_one_ping`. It reads a 20-byte IPv4 header
  (section 3.1 of RFC 791) and an 8-byte ICMP header, and takes the data size to be the length
  minus 28.
- **Receive loop**: the wait loop of `receive_one_ping`, run over a finite list of `select`
  outcomes. It keeps only replies that carry our identifier. After every foreign datagram it
  charges the time spent waiting to the remaining budget.
- **Statistics**: the counters, running minimum, maximum and total, and the delay list that
  `do_one` updates. Also the loss fraction, reported time and latency block that `dump_stats`
  derives from them.
- **Probe loop**: one iteration of `ping`. It runs `do_one` with the current sequence number,
  adds one to the sequence, and sleeps `MAX_SLEEP - delay` when that is positive.

Modules: `Bytes` (byte and word types, `struct` packing), `Results` (Option and Result),
`Checksum`, `Icmp` (wire format), `Receiver` (wait loop), `Stats` and `Probe` (the `ping` loop).

The model follows what the code does, including where that is easy to misread:

- A failed `sendto` makes `do_one` return before `pktsSent += 1`, so the failed request is not
  counted as sent.
- A datagram shorter than 28 bytes makes `struct.unpack` raise, and nothing catches the
  exception. The model ends the session with `Crash` rather than ignoring the datagram.
- With nothing sent, the loss fraction keeps its initial value 1.0.
- The ICMP type of a reply is never checked. Any datagram with our identifier is accepted.
- The sequence number is never reduced to 16 bits. Sequence 65536 makes `struct.pack` raise,
  which ends the program (`Probe.OverflowHalts`).
- `do_one` opens a new raw socket on every attempt and re-raises a failure. `ping` catches only
  `KeyboardInterrupt`, so a failure on attempt k ends the program after k - 1 recorded attempts,
  with no summary printed. The model stops the run with `SocketError`.
- A negative timeout makes the first `select` of a wait raise `ValueError`, after the request
  was sent and counted. Nothing catches it, so the model stops the run with `NegativeTimeout`.

The model's clock readings are integer milliseconds. The source reads `time.time()` in seconds
and converts in three places: the delay of line 99 is multiplied by 1000, the budget of line
152 is `timeout/1000` seconds, and the sleep of line 238 is `(MAX_SLEEP - delay)/1000` seconds.
The model works in milliseconds there, so all three conversions disappear. Line 198 does not convert: it adds elapsed seconds to gaps in milliseconds. That line
is modelled as written by `Stats.PrintedTimeAsWritten`, and the summary uses the corrected
figure (see "## Findings").

## Model

| member | source | states |
|---|---|---|
| Bytes.Be16RoundTrip | ping.py:124-126 | a 16-bit field packed with `"!H"` inside any byte string reads back as the value packed |
| Bytes.ReadBe16Inverse | ping.py:172-176 | packing a 16-bit field read from bytes reproduces those two bytes |
| Bytes.Be32RoundTrip | ping.py:166-170 | a 32-bit address packed with `"!I"` reads back as the value packed |
| Bytes.ReadBe32Inverse | ping.py:166-170 | packing a 32-bit field read from bytes reproduces those four bytes |
| Checksum.HostChecksum | ping.py:37-67 | `checksum` is total for every byte string, odd and empty included; the result is a 16-bit value, and empty input gives 0xFFFF |
| Checksum.ComputeChecksum | ping.py:37-67 | the loop over byte pairs plus the trailing byte, truncation, two folds, complement and `htons` computes `HostChecksum`; on a little-endian host and up to 65535 bytes, that is the RFC 1071 checksum |
| Checksum.FoldIsOnesSum | ping.py:61-63 | for any sum below 2^32 the two folds give the one's-complement value of the sum: 0 for 0, else the representative modulo 0xFFFF in 1..0xFFFF |
| Checksum.SwappedSum | ping.py:46-53 | byte-order independence (section 2(B) of RFC 1071): 0x100 times the network-order sum is congruent modulo 0xFFFF to the little-endian word sum with a zero-padded trailing byte, and one is zero exactly when the other is |
| Checksum.HostSumAgrees | ping.py:46-59 | the source's raw sum equals the sum with a zero-padded trailing byte on a little-endian host, and on a big-endian host for even lengths |
| Checksum.LittleEndianIsRfc | ping.py:37-67 | on a little-endian host `checksum` returns exactly the RFC 1071 checksum, in network order, for every input up to 65535 bytes |
| Checksum.BigEndianEvenIsRfc | ping.py:50-53 | on a big-endian host `checksum` agrees with RFC 1071 for even lengths up to 65535 bytes |
| Checksum.BigEndianOddDiverges | ping.py:57-59 | on a big-endian host the one-byte input 0x42 gets 0xFFBD, where RFC 1071 gives 0xBDFF |
| Checksum.FixedIsRfc | ping.py:37-67 | once a trailing odd byte is weighed as the first byte of a zero-padded word, the computation is the RFC 1071 checksum on either host, for every input up to 65535 bytes |
| Checksum.ComplementCloses | ping.py:61-64 | adding the complemented one's-complement sum back to the sum gives all ones, the value a correctly checksummed message sums to |
| Icmp.IcmpHeaderRoundTrip | ping.py:172-176 | unpacking `"!BBHHH"` recovers every field of a packed ICMP header |
| Icmp.IcmpHeaderBytesRoundTrip | ping.py:172-176 | packing the unpacked ICMP header reproduces its 8 bytes |
| Icmp.IpHeaderRoundTrip | ping.py:165-170 | unpacking `"!BBHHHBBHII"` recovers every field of a packed IPv4 header |
| Icmp.IpHeaderBytesRoundTrip | ping.py:165-170 | packing the unpacked IPv4 header reproduces its 20 bytes |
| Icmp.PacketLayout | ping.py:124-137 | the request built around any checksum has type 8 and code 0, the identifier at bytes 4-5 and the sequence at 6-7 in network order, and the counting payload after the header; it differs from the zero-checksum request only in bytes 2-3 |
| Icmp.EncodeRequestAsWritten | ping.py:121-137 | the request is 8 + n bytes with that layout, and bytes 2-3 hold the host checksum of the zero-checksum header plus payload, in network order |
| Icmp.EncodeRequest | ping.py:121-137 | the same layout with the corrected checksum in bytes 2-3; every other byte is that of the zero-checksum packet |
| Icmp.EncodeRequestVerifies | ping.py:134-137 | self-verification: every request of at most 65535 bytes passes an RFC 1071 receiver's check, on either host |
| Icmp.EncodeRequestAgrees | ping.py:121-137 | for every payload length, the source's request equals the corrected one on a little-endian host, and on a big-endian host when the payload length is even |
| Icmp.AsWrittenSelfChecks | ping.py:121-137 | on a little-endian host `checksum` over the request it built returns 0, for every request up to 65535 bytes |
| Icmp.AsWrittenBigEndianOddRejected | ping.py:57-59 | on a big-endian host the request with a one-byte payload fails an RFC 1071 receiver's check |
| Icmp.DecodeReply | ping.py:165-179 | fewer than 28 bytes is an error; otherwise the TTL is byte 8, the source address bytes 12-15, the identifier bytes 24-25 and the sequence bytes 26-27, all big-endian, and the data size is the length minus 28 |
| Icmp.DecodeReplyRoundTrip | ping.py:165-179 | a datagram assembled from an IPv4 header, an ICMP header and a payload decodes to those headers and that payload length |
| Icmp.DecodeEncodedRequest | ping.py:165-179 | a request with any checksum field, behind any 20-byte IPv4 header, decodes to type 8, code 0, that checksum, the request's identifier and sequence, and a data size equal to the payload length; this covers the source's encoder on either host and for every payload length, and the corrected encoder |
| Receiver.Receive | ping.py:154-184 | the wait loop never returns a datagram whose identifier is not ours |
| Receiver.ReceiveOnePing | ping.py:148-184 | for a timeout that is not negative (a negative one makes `select` raise), the imperative loop returns what the recursive model returns, so never a foreign reply |
| Receiver.ReceivedSound | ping.py:178-180 | a returned reply is the one of a round that carried our identifier, after rounds that were all foreign and left a positive budget |
| Receiver.ReceivedComplete | ping.py:154-184 | if a round carried our identifier after rounds that were all foreign and left budget, the loop returns that round's reply and reception time |
| Receiver.ReceivedIff | ping.py:154-184 | the loop returns a reply exactly when such a round exists |
| Receiver.TimedOutIff | ping.py:154-184 | the loop times out exactly when, after foreign rounds that left budget, `select` reports nothing ready or a foreign datagram brings the budget to 0 or below |
| Receiver.ForeignCharged | ping.py:182-184 | after a foreign datagram the budget drops by exactly the time spent in `select`, and the loop times out once it is no longer positive |
| Stats.DoOne | ping.py:87-106 | a failed send leaves the record unchanged; a sent request adds one to `pktsSent`; only a reply adds one to `pktsRcvd` and appends its delay (reception minus send time); the record's invariant is preserved |
| Stats.DelaysWithinExtremes | ping.py:103-106 | the running minimum and maximum bound every recorded delay and their initial values |
| Stats.ExtremesAttained | ping.py:103-106 | the running minimum and maximum are each their initial value or one of the delays |
| Stats.ExtremesOfValid | ping.py:99-106 | in a valid record every delay lies in [`minTime`, `maxTime`]; with replies whose delays are non-negative and below the initial `minTime`, both extremes are delays |
| Stats.LossFraction | ping.py:195-198 | the loss fraction lies in [0, 1]; it is 0 exactly when every request was answered and 1 exactly when none was; the reported time, in the corrected milliseconds, is never below the elapsed time once a ping was sent, and adds 1000 ms per ping after the first |
| Stats.LatencyBlock | ping.py:200-202 | the latency block appears exactly when a reply was received; its mean lies between the minimum and the maximum, and times the reply count gives the total delay |
| Stats.TotalBetween | ping.py:99-106 | the total delay of a valid record lies between `pktsRcvd` times `minTime` and `pktsRcvd` times `maxTime` |
| Stats.MeanOfValid | ping.py:202 | the mean `totTime / pktsRcvd` lies between `minTime` and `maxTime` |
| Stats.TruncDiv | ping.py:198 | `%d` truncates toward zero: the result times the divisor lies within one divisor of the value, below it for non-negative values and above it for negative ones |
| Stats.AsWrittenTimeMixesUnits | ping.py:198 | as written, a session of at least one ping prints its elapsed time truncated to whole seconds plus the gaps in milliseconds |
| Stats.AsWrittenTimeUndercounts | ping.py:198 | as written, one ping over 3000 ms prints 3 where 3000 ms elapsed, and four pings over 3000 ms print 3003 where the milliseconds add up to 6000 |
| Stats.ReportedTimeCovers | ping.py:198 | with both terms in milliseconds, the reported time is never below the elapsed time once a ping was sent, and each further ping adds exactly one gap |
| Probe.Pace | ping.py:232-238 | each iteration adds exactly one to the sequence; the sleep is never negative; a missing delay counts as 0; below `MAX_SLEEP` the sleep tops the delay up to `MAX_SLEEP`, and otherwise there is no sleep |
| Probe.Tick | ping.py:229-238 | one iteration adds one to the sequence, counts exactly the sent request, and keeps the record valid; it stops exactly when the attempt cannot open its socket, and it stops when a sequence number above 65535 reaches `struct.pack`; after a successful send it stops on a negative timeout, which `select` rejects, and a failed send always goes on |
| Probe.RunInvariant | ping.py:229-238 | over any run the record stays valid, the sequence advances once per attempt, `pktsSent` counts exactly the sent requests, and the total sleep never decreases |
| Probe.AllTimeouts | ping.py:88-109 | with a timeout that is not negative, if every wait ends without a reply, whether `select` reports nothing or foreign datagrams use up the budget, N attempts send N requests, receive none and sleep N·`MAX_SLEEP` |
| Probe.NoRepliesSummary | ping.py:195-202 | a session in which every wait ended without a reply reports every request sent, none received, total loss and no latency block |
| Probe.OverflowHalts | ping.py:235 | starting from sequence 1, after 65535 completed iterations the next attempt that opens its socket stops the program with `struct.pack` rejecting sequence 65536 |
| Probe.TimedOutTick | ping.py:229-238 | with a timeout that is not negative, an iteration whose wait ends without a reply counts the request, records no delay and sleeps the whole `MAX_SLEEP` |
| Probe.RunAppend | ping.py:229-238 | running two lists of exchanges in turn is running their concatenation, and a halt in the first ends the whole run |
| Probe.AnsweredTick | ping.py:229-238 | with a timeout that is not negative, an iteration answered after `rtt` ms, with `rtt` below `MAX_SLEEP`, records a delay of `rtt` and sleeps `MAX_SLEEP - rtt` |
| Probe.AnsweredRun | ping.py:229-238 | with a timeout that is not negative, if every request is answered after the same `rtt` ms, N iterations add N to both counters, append N copies of `rtt`, add N·`rtt` to the total, move each extreme to `rtt` if it lies beyond, advance the sequence by N and sleep N·(`MAX_SLEEP - rtt`) |
| Probe.FourRepliesScenario | ping.py:195-202 | with a timeout that is not negative, four requests each answered after 5 ms give a summary of 4 sent, 4 received, no loss, and a minimum, maximum and mean of 5 ms |

## Left out

- Socket I/O is not modelled: `socket`, `sendto`, `recvfrom`, `select` and `gethostbyname`. Each attempt is given as an `Exchange` input: whether the socket opened, whether and when the request left, and the `select` outcomes its wait sees.
- The per-attempt `gethostbyname` of line 118 is not modelled. It receives an address that is already resolved.
- Clocks and `time.sleep` are not modelled. Times are abstract integer milliseconds, and the sleep is only computed.
- Delays are integers. The source's float seconds times 1000 are not modelled.
- The standard deviation (`numpy.std`) is not modelled. It is a foreign floating-point and square-root computation.
- Console output, `input` and the text format of the summary are not modelled.
- `KeyboardInterrupt` is not modelled. Reaching the end of the exchange list stands for the interrupt, and the end time is a parameter of `DumpStats`.
- `recvfrom(ICMP_MAX_RECV)` truncation is not modelled. A datagram in a `Ready` outcome is what `recvfrom` returned.
- The source treats a reception time of exactly 0.0 as a timeout, because it tests the float's truth value. The model treats every received reply as a reply.
- The model keeps a fresh statistics record per session. In the source, `delayList` is a class attribute that `MyStats()` does not reset.
- The host name and resolved address are not modelled. They are only printed.
- `Checksum.LittleEndianIsRfc`: holds for inputs of at most 65535 bytes, the largest IPv4 datagram. Above that, the source's 32-bit truncation can drop carries.
- `Checksum.BigEndianEvenIsRfc`: holds for inputs of at most 65535 bytes, for the same reason. 131076 bytes of 0xFF sum to 2^32 + 0xFFFE, which line 61 truncates to 0xFFFE.
- `Checksum.FixedIsRfc`: holds for inputs of at most 65535 bytes. The corrected sum keeps the source's 32-bit truncation.
- `Icmp.AsWrittenSelfChecks`: holds for requests of at most 65535 bytes, because it rests on `Checksum.LittleEndianIsRfc`.
- `Icmp.EncodeRequest`: the identifier and sequence are 16-bit parameters. The source masks the identifier, and it crashes on a larger sequence, which `Probe.Tick` models.
- `Receiver.Receive`: `Unfinished` is a result of the model only. It means the listed `select` outcomes ran out before the wait ended.
- `Receiver.Receive`: accepts any starting budget and gives a negative one no error of its own. In the source, `select` raises `ValueError` on it. `Probe.Attempted` models that crash before the loop is consulted, and `Receiver.ReceiveOnePing` requires a timeout that is not negative.

## Findings

| source | as written | input that shows it | evidently intended | confidence | as-written member | corrected member |
|---|---|---|---|---|---|---|
| ping.py:57-59 | on a big-endian host a trailing odd byte is added as the low byte of its word | big-endian host, identifier 0, sequence 0, one payload byte 0x42: the request carries checksum 0xF7BD, and an RFC 1071 receiver sums it to 0x41BE instead of 0xFFFF | the trailing byte is the high byte of a word padded with one zero octet (the Echo message of RFC 792), as it already is on a little-endian host | not executed; the counterexample is proved | `Icmp.AsWrittenBigEndianOddRejected` | `Icmp.EncodeRequestVerifies` |
| ping.py:198 | the elapsed `time.time()` difference, in seconds, is added to `(pktsSent-1)*1000` milliseconds and printed with `%d` as "ms" | four pings over 3000 ms print 3003 where the milliseconds add up to 6000; one ping over 3000 ms prints 3 | the elapsed time in milliseconds plus one 1000 ms gap per ping after the first, never less than the elapsed time once a ping was sent | not executed; the arithmetic is proved | `Stats.AsWrittenTimeUndercounts` | `Stats.ReportedTimeCovers` |
