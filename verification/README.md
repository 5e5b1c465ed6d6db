# Verification of a UDP latency tester

NLMT measures latency and loss over UDP. A client sends numbered requests, a server answers them, and when the
test is over the client works out what became of every packet. This project models that in Dafny and proves:

- **Loss attribution.** The server's 64-bit received window, the client's recorder and the classification at the
  end, over a network that drops, duplicates and reorders packets in both directions. `LostDown` is sound in every
  run. `LostUp` is, exactly when the order in which requests are accepted is settled (`NetworkRuns.RunsSoundExactly`),
  as it is when they are accepted in order; and then all four statuses are exact.
- **Packets.** The buffer whose optional fields share one array, the header, the HMAC, and a whole echo from the
  client's request to what it reads of the reply.
- **Parameters.** The tagged varint codec, the server's restrictions and the client's acceptance, and which servers
  are safe with every client.
- **Algorithms.** The glob matcher, the token bucket, the send schedule, Welford's statistics, and the pattern
  filler.

Code that works by changing state is a class or a method with loops, proved against functions on values. What the
source promises is then proved of those functions. The files, by layer:

| file | models |
|---|---|
| Numbers.dfy, Times.dfy, Config.dfy | machine integers, times and enumerations, limits |
| Window.dfy, TokenBucket.dfy, Sconn.dfy | the server's state for one connection |
| Stats.dfy, Recorder.dfy, RecorderRuns.dfy | the client's recorder |
| Result.dfy | loss classification |
| Network.dfy, ExactLoss.dfy, NetworkRuns.dfy, CountRuns.dfy, ClosingRuns.dfy | what the classification and the counts mean over whole runs, and when they are exact; when connections close |
| Layout.dfy, Fbuf.dfy, Packet.dfy | the packet buffer and the header |
| EchoReply.dfy, EchoRoundTrip.dfy, EchoRequest.dfy | one echo, end to end |
| WireFormat.dfy | packets as bytes |
| Varint.dfy, Params.dfy, ParamsRoundTrip.dfy | the parameter codec |
| Glob.dfy, Filler.dfy, Fills.dfy | allowed fills, and the fillers they ask for |
| Negotiation.dfy, Serving.dfy | restriction and acceptance of parameters, and what they mean for the echoes that follow |
| Schedule.dfy | the send loop |

Findings, each stated exactly by a lemma:

- `Seqno` is unsigned, so the branches for late packets (sconn.go:256-259) never run: a late packet slides the
  whole window out. doc/irtt.md:166-171 warns that `LostUp` may be wrong for packets that arrive late, or when a
  window is lost: it is wrong in some run exactly when the order is not settled (`NetworkRuns.RunsSoundExactly`,
  `NetworkRuns.LostUpNeedsOrder`), and a lost window does not matter. `LostUp` means that the packet was never
  accepted; the rate limit may have dropped it.
- A reply that closes the connection is not recorded (conn.go:297-300), so its packet may be classified as lost
  (`NetworkRuns.ClosingReplyIsLost`); no other reply to a packet that has a record is missed. It takes a server with
  a maximum duration, which is off by default.
- `RTTStats.N` can exceed `SendCallStats.N`, so that the loss count wraps around (result.go:149), iff a send
  reported an error after its packet and all others had been answered (`RecorderRuns.LossCountWraps`, and
  `NetworkRuns.LossCountCanWrap` for a run). This assumes that a send call that reports an error may have put its
  packet on the wire all the same.
- The upstream and downstream losses wrap around as well (result.go:156-163): duplicated requests make the server
  count more than was sent, and duplicated replies make the client count more than the server
  (`CountRuns.UpstreamSafeExactly`, `CountRuns.DownstreamSafeExactly`).
- A clock parameter that is left out decodes to 0, and the handshake grants it. The server then panics when it stamps
  a reply (timesrc.go:33, time.go:118), unless it allows no stamps (`EchoRoundTrip.StampableExactly`,
  `Serving.ClocklessPanics`, `Serving.NeverPanicsExactly`).
- A fill of `pattern:`, or one that starts with `pattern::`, decodes to an empty pattern, and building its filler
  divides by zero (filler.go:32). A server is safe iff no allowed glob matches such a fill
  (`Negotiation.SafeFillsExactly`); `*` does (`Negotiation.AnyFillIsUnsafe`).
- A server whose maximum length is less than the fields of a request refuses every request of a client that it has
  agreed with (`Serving.PassesExactly`, `Serving.TakesAllExactly`).
- Shrinking a field copies from the wrong offset (fbuf.go:224-228). It is right for all contents iff nothing
  follows the field (`Layout.ShrinkKeepsExactly`). No packet of the echo exchange ever shrinks a field that is set.
- A midpoint stamp always carries both clocks (sconn.go:306-309), but the client lays out only those it asked for.
  With the wall clock alone the rest falls into the payload; with the monotonic clock alone the client reads the
  wall clock for it (`EchoRoundTrip.StampsRightExactly`).
- The comment on `RTT` says that the server's processing time is subtracted if it does not exceed the round-trip time
  (recorder.go:210-213). It is subtracted in any case (`Recording.NegativeExactly`).
- A timeout above zero but below 4s makes loose clients fail (`Negotiation.ServerAgreesExactly`).
- A strict client may get an interval below the server's minimum, if it is just a quarter of the timeout
  (`Negotiation.StrictAgreesExactly`).
- The stamp checks of `validate` (packet.go:235-250) run when no stamp has a field yet, so they never fail
  (`Packets.Packet.NoStampsYet`).

`dafny verify dfyconfig.toml` checks the project.

## Model

| member | source | states |
|---|---|---|
| Network.LostDownIsSound | result.go:44-67 | In every run over a network that drops, duplicates and reorders in both directions, a packet classified `LostDown` was accepted by the server, and the only reply to it that can have reached the client is the one that closed the connection, which is not recorded (conn.go:297-300); none did if the server has no maximum duration |
| NetworkRuns.RunsSoundExactly | result.go:44-67 | Whatever requests reach the server: no accepted packet is classified `LostUp` in any run exactly if the order in which they are accepted is `Settled` |
| ExactLoss.LostUpSoundExactly | result.go:44-67 | `LostUp` is right for all records that a server with given accepted seqnos may have stamped exactly if their order is `Settled`: whenever one is accepted, seqnos have not fallen since any of the 63 before it was |
| ExactLoss.SettledIsExact | result.go:44-67 | In every settled run each status is the packet's fate: `LostFalse` if the client heard a reply to it that was not a closing one; else `LostTrue` if it heard none to the next 63; else `LostDown` exactly if accepted; else `LostUp` |
| ExactLoss.InOrderIsExact | result.go:44-67 | The same if requests are accepted in nondecreasing seqno order |
| ExactLoss.InOrderIsSettled | sconn.go:247-263 | Nondecreasing order is settled |
| NetworkRuns.ClosingReplyIsLost | conn.go:297-300 | For every server with a maximum duration, a run in which a closing reply to a packet reaches the client and the packet is classified `LostDown` |
| ClosingRuns.ClosesExactly | sconn.go:266-273 | In every run an accepted request gets one reply, and it closes the connection iff MaxDuration is set and the request is checked more than MaxDuration and 2s after the first one |
| ClosingRuns.ClosedExactly | sconn.go:266-273 | A connection is closed exactly in the runs in which some accepted request was checked that late, and before that no reply says so |
| NetworkRuns.LossCountCanWrap | result.go:147-153 | A run in which more replies are counted than send calls: the send call reports an error after its packet has been answered |
| NetworkRuns.LostUpNeedsOrder | sconn.go:247-263 | The simplest run that is not settled: an accepted packet is classified `LostUp` |
| CountRuns.CountMeans | recorder.go:175-178 | In every run the recorded count is the number of requests accepted, modulo 2^32, when the last of the first replies was sent |
| CountRuns.UpstreamSafeExactly | result.go:156-159 | Whatever requests reach the server: the upstream loss wraps in no run exactly if no count that the server can reach before it closes exceeds the number of packets sent |
| CountRuns.DownstreamSafeExactly | result.go:160-163 | The downstream loss wraps in no run exactly if the server accepts nothing before it closes: otherwise duplicated replies make it wrap |
| Network.RunKeepsInv | sconn.go:247-298 | Every run keeps the network invariant: each window and count in flight, and each window recorded, is the server's at the moment its seqno was the latest accepted; a record is answered iff a reply to it was heard; replies close the connection only past the maximum duration; and the recorder is conserved |
| Network.StepKeepsInv | sconn.go:205-298 | Each single step (send, fail, drop, duplicate, serve, receive) keeps that invariant |
| ExactLoss.StatusIsFate | result.go:45-66 | Records whose windows were stamped by a server with a settled order have exactly the status that the accepted seqnos dictate |
| Window.WindowExact | sconn.go:247-263 | Bit k < 64 of the received window is set iff some accepted seqno has been slid by k, for every request sequence: late, duplicate and wrapping seqnos included |
| Window.WindowSound | sconn.go:247-263 | Bit k set implies that seqno last - k (modulo 2^32) was accepted, whatever the order |
| Window.BitMeansHeld | sconn.go:247-263 | For every sequence, the bit of each of the last 64 seqnos is set iff it was accepted and seqnos have not fallen since |
| Window.WindowComplete | sconn.go:247-263 | On nondecreasing sequences the bit of each of the last 64 seqnos is set iff it was accepted |
| Window.BitOfShift | sconn.go:250-252 | Shifting a 64-bit window left by any uint32 amount moves bit k - n to bit k and clears the rest |
| ServerConn.Sconn.constructor | sconn.go:38-47 | A new connection has a full bucket, an empty window, and reflects no requests |
| ServerConn.Sconn.ServeEcho | sconn.go:205-273 | The whole per-request state change: the three outcomes and exactly when each occurs, the window and count that are stamped, that a rejected request leaves both alone, and that an accepted one closes the connection iff it is checked more than MaxDuration and 2s after the first request |
| ServerConn.Sconn.TakeToken | sconn.go:218-245 | The bucket follows its specification and a request is admitted iff the specification admits it |
| ServerConn.Sconn.SlideWindow | sconn.go:247-263 | The window fields become those of the connection that accepted one seqno more |
| TokenBucket.AdmitsExactly | sconn.go:224-239 | In whole nanoseconds: a request is accepted iff every stretch of requests that ends with it leaves an interval to spend, of an interval for each token of the burst and the time elapsed, less an interval for each request accepted |
| TokenBucket.BucketIsLeastAllowance | sconn.go:225-232 | The refilled bucket, times MinInterval, is the least of these allowances, which are integers |
| TokenBucket.StretchBounded | sconn.go:224-245 | For nondecreasing arrival times, any stretch in which something is accepted has (accepted - PacketBurst) * MinInterval <= elapsed |
| TokenBucket.NoDropsExactly | sconn.go:224-245 | A run has no rate-limit drop iff every contiguous stretch of its arrivals has (length - PacketBurst) * MinInterval <= elapsed |
| Losses.ClassifyLosses | result.go:38-67 | The nested loops compute the order-independent status: `LostFalse` iff answered, else `LostDown` iff some window within 63 confirms it, else `LostUp` iff some valid window covers it, else `LostTrue` |
| Losses.AmendEarlier | result.go:49-65 | One window amends exactly the 63 earlier statuses, each by its own bit, and never un-answers a packet |
| Losses.StatusStep | result.go:54-65 | Considering one more reply changes each status as one window's bit does, so the order of replies does not matter |
| Recording.Recorder.RecordPreSend | recorder.go:68-81 | Appends an unanswered record and sets the first send time once |
| Recording.Recorder.RemoveLast | recorder.go:83-87 | Removes the last record, and nothing else |
| Recording.Recorder.RecordPostSend | recorder.go:89-107 | Pushes the send call's duration, adds the bytes and sets the last sent time |
| Recording.Recorder.RecordReceive | recorder.go:115-194 | Rejects unknown seqnos, transfers ECN, counts duplicates, and records and measures first replies: the whole new state, and for every flight of a packet between two hosts with any clocks, the round-trip time and the delays that are pushed |
| Recording.FirstReplyMeasures | recorder.go:210-281 | Whatever the clocks of the hosts: the round-trip time pushed is the time up and down if both server stamps are there, and the whole time otherwise; the one-way delays are right but for the difference between the wall clocks |
| Recording.NegativeExactly | recorder.go:210-223 | A round-trip time is negative iff the server's processing time exceeds the time that passed, which the comment on `RTT` says is not subtracted |
| Recording.SendCallMeasures | recorder.go:89-107 | The duration pushed for a send call is the time that passed on the client's clocks |
| RecorderRuns.RunConserves | recorder.go:68-194 | In every interleaving of the send and receive goroutines: accepted receives are RTTStats.N + Duplicates, RTTStats.N counts distinct answered seqnos, LatePackets counts the descents among first arrivals |
| RecorderRuns.StepConserves | recorder.go:68-194 | Each recorder call keeps that conservation |
| RecorderRuns.RunCountsBytes | recorder.go:96-187 | In every interleaving BytesSent is the bytes of all packets sent and BytesReceived those of the first replies, modulo 2^64 |
| RecorderRuns.LossCountWraps | result.go:147-153 | The loss subtraction wraps around iff a send failed after its packet and every other had been answered; so never after an error-free send |
| Stats.DurationStats.Push | recorder.go:375-394 | After any pushes N, Total, Min, Max, mean and s are those of the list of pushed durations |
| Stats.DurationStats.Welford | recorder.go:389-393 | The recurrence gives the mean and the sum of squared deviations of the longer list |
| Stats.DurationStats.Variance | recorder.go:407-412 | The nonnegative sample variance, 0 for at most one duration |
| Stats.MeanStep | recorder.go:390-392 | The updated mean is the mean of the longer list |
| Stats.DeviationStep | recorder.go:392-393 | The updated s is the sum of squared deviations from the new mean |
| Stats.MeanIsQuotient | recorder.go:400-404 | The specification's mean is the sum divided by the count |
| Layout.ParsePrinted | fbuf.go:15-20 | Parsing what was printed gives back every field, whatever follows: the layout follows from which fields are set alone |
| Layout.PrintParsed | fbuf.go:15-20 | The bytes before the payload are the fields printed side by side |
| Layout.GrowValues | fbuf.go:220-246 | Growing a field keeps the bytes of every other field at its new position |
| Layout.GrowPayload | fbuf.go:220-246 | Growing a field moves the payload, byte for byte |
| Layout.WriteValue | fbuf.go:110-119 | Writing a field changes its bytes and nothing else |
| Layout.ShrinkKeepsExactly | fbuf.go:224-228 | Shrinking takes out the right bytes of every buffer iff nothing follows the field: the copy starts at the wrong offset |
| Fbufs.Fbuf.constructor | fbuf.go:32-41 | A buffer of zeros with no field set, of the length and capacity asked for or as large as its fields |
| Fbufs.Fbuf.SetFields | fbuf.go:58-81 | Exactly the selected fields are set, at prefix-sum positions, each of full capacity; an error iff they exceed the buffer |
| Fbufs.Fbuf.AddFields | fbuf.go:83-106 | Exactly the old and the selected fields are set, likewise |
| Fbufs.SelectedIncreasing | fbuf.go:61-74 | Strictly increasing indexes in range are all selected, and nothing else |
| Fbufs.Fbuf.Grow | fbuf.go:220-246 | The buffer, positions and length after a field is grown, with the return to the target length |
| Fbufs.Fbuf.SetTo | fbuf.go:121-127 | Makes a field set and keeps all others; the payload is kept up to the target length |
| Fbufs.Fbuf.Set | fbuf.go:110-119 | Sets a field to the given bytes and keeps all others, whether or not it was set before |
| Fbufs.Fbuf.ContentsPrinted | fbuf.go:15-20 | The buffer is its fields printed side by side and then the payload, and no more |
| Fbufs.Fbuf.PayloadKept | fbuf.go:240-244 | The payload after growth is the old one cut short or run on to the target length |
| Fbufs.Fbuf.Get | fbuf.go:156-159 | The bytes of the field |
| Fbufs.Fbuf.IsSet | fbuf.go:169-171 | Whether the field is set |
| Fbufs.Fbuf.SetPayload | fbuf.go:140-144 | Replaces the payload and keeps every field |
| Fbufs.Fbuf.SetLen | fbuf.go:192-204 | The buffer takes the target length, kept between the fields' length and the capacity |
| Fbufs.Fbuf.Validate | fbuf.go:43-54 | An error iff the fields exceed the buffer; the check of the capacities never fails |
| Fbufs.Fbuf.Shrink | fbuf.go:220-246 | Exactly what the code does when it shrinks a set field, wrong offset included |
| Fbufs.Fbuf.Remove | fbuf.go:208-212 | Nothing for a field that is not set, and shrinking for one that is |
| Packets.Packet.constructor | packet.go:189-203 | A packet with its magic and flags (and HMAC) fields only, no flag set |
| Packets.Packet.SetConnToken | packet.go:306-308 | Sets the token of the header, and nothing else of it |
| Packets.Packet.SetSeqno | packet.go:316-318 | Sets the seqno of the header, and nothing else of it |
| Packets.Packet.SetReceivedCount | packet.go:326-328 | Sets the received count of the header, and nothing else of it |
| Packets.Packet.SetReceivedWindow | packet.go:334-336 | Sets the received window of the header, and nothing else of it |
| Packets.Packet.SetFlagBits | packet.go:278-280 | Sets one flag of the header |
| Packets.Packet.ClearFlagBits | packet.go:282-284 | Clears one flag of the header |
| Packets.FlagBits | packet.go:62-72 | Setting or clearing a flag leaves every other flag alone |
| Packets.Packet.SetTimestamp | packet.go:392-412 | Sets just the stamp fields of the clocks that are not zero, midpoint or receive and send, of any packet that has room for them |
| Packets.Packet.Stamps | packet.go:372-390 | The timestamp that the header's stamps stand for |
| Packets.Packet.StampedAt | packet.go:437-449 | Which stamps the header has |
| Packets.Packet.StampClock | packet.go:426-435 | Which clocks the header's stamps have |
| Packets.Packet.AddReceivedStatsFields | packet.go:359-368 | Adds exactly the fields of the received stats asked for |
| Packets.Packet.AddTimestampFields | packet.go:471-487 | Adds exactly the stamp fields asked for |
| Packets.Packet.UpdateHMAC | packet.go:500-514 | Leaves the packet authentic for any keyed hash: its digest is that of the packet with the field zeroed, and no other field changes |
| Packets.Packet.RemovingHMACPanics | packet.go:509-513 | Removing the HMAC field would panic, so a packet that has it must have a key |
| Packets.Packet.ReadReset | packet.go:205-217 | The error is exactly `ReadError` of the bytes; on success the buffer is the packet, its digest blanked |
| Packets.Packet.Validate | packet.go:224-270 | The error is exactly that of the contents and the header, in the order of the checks, those on stamps included |
| Packets.Packet.NoStampsYet | packet.go:205-250 | The checks on stamps pass whenever a packet has just been reset |
| Packets.Packet.CompareMAC | packet.go:253-266 | An error iff the packet is not authentic; the field is left zeroed |
| Packets.SignedIsAuthentic | packet.go:500-508 | A buffer into which the digest of its blanked self is written is authentic, whatever the hash |
| Packets.PutGet64 | packet.go:302-308 | A 64-bit value reads back as it was written, little-endian |
| Packets.PutGetSigned | packet.go:158-172 | A signed clock value reads back as it was written |
| EchoReply.FillReply | sconn.go:241-321 | The reply's header, as a function of the request's, and exactly the fields that it sets, whenever the server can stamp the reply; its stamps are the arrival and the reply, or the time halfway between them |
| EchoReply.Finish | sconn.go:323-331 | The packet is padded to its length, and authentic if there is a key |
| EchoReply.ReceiveReply | client.go:598-637 | What the client makes of any bytes: each error and when it occurs, and otherwise the stamps of the header that its own parameters dictate; an answer at least as long as that header has all the fields that are read |
| EchoRoundTrip.Exchange | sconn.go:285-331 | The client reads back the token, the seqno and the counters of the server's reply, whenever the server can stamp it, and exactly the stamps of `StampsSeen`: those of the clocks it asked for, but of the midpoint by the monotonic clock alone the wall clock |
| EchoRoundTrip.StampableExactly | timesrc.go:23-35 | For given parameters the server can stamp its replies at all times iff they ask for no stamps or name a clock; it panics otherwise |
| EchoRoundTrip.TryStampsAre | sconn.go:300-318 | The stamps taken step by step, as the code takes them, are those of `ReplyStamps` |
| EchoRoundTrip.LayoutsAgreeExactly | sconn.go:306-309 | Client and server agree on the layout iff the midpoint is not asked of a single clock |
| EchoRoundTrip.StampsSurvive | sconn.go:300-318 | The client never sees a stamp or clock mismatch, and reads exactly the stamps of `StampsRead` |
| EchoRoundTrip.StampsReadExactly | sconn.go:300-318 | These are the stamps of `StampsSeen`, and no others are |
| Times.MidpointExactly | time.go:104-106 | The midpoint is the one time halfway: every clock has moved by half of the gap between the times, rounded towards zero |
| Times.HalfwayIsBetween | time.go:104-106 | Unless a clock wraps around, it lies between the two, as near to the one as to the other to within a nanosecond, and the clocks move together |
| EchoRoundTrip.StampsRightExactly | sconn.go:306-309 | For given parameters the stamps read are right at all times iff they are not the midpoint of the monotonic clock alone |
| EchoRoundTrip.LongEnough | client.go:344-345 | A reply is never shorter than the request, which reserves its fields |
| EchoRoundTrip.SeenThrough | client.go:612-630 | What the client parses is what the server printed, but for the midpoint of a single clock |
| EchoRoundTrip.FinishedIsRead | packet.go:205-270 | A signed packet with good magic and flags passes a receiver with the same key, whatever fields and payload follow |
| EchoRoundTrip.ReplyFieldsAre | packet.go:392-412 | The fields that the server sets follow from the parameters alone |
| EchoRequest.NewRequest | client.go:326-361 | A request that has its token, seqno and flags, reserves exactly the fields that the client will read of the reply, has its padded length, and is authentic if there is a key |
| EchoRequest.ReadRequest | server.go:202-226 | What the server makes of any bytes from any address, with any connections: each error and when it occurs |
| EchoRequest.RequestSeen | server.go:214-218 | The server reads the same header whatever fields the client reserves after the seqno |
| EchoRequest.Request | server.go:202-226 | The server accepts the client's request on its connection and reads its token and seqno |
| EchoRequest.Echo | sconn.go:205-349 | A whole echo, from the client's request to what it reads of the reply, all of it within the packet, whenever the server can stamp the reply: token, seqno and counters always, and the right stamps unless they are the midpoint of the monotonic clock alone |
| WireFormat.HeaderBytes | packet.go:94-116 | At which bytes the fields of a full header are, little-endian, signed ones in two's complement |
| WireFormat.ReadExactly | packet.go:205-270 | A packet is read iff it has the magic bytes, no unknown flag, and the right digest exactly if there is a key |
| WireFormat.ReplyReadExactly | client.go:598-612 | A client looks at the optional fields exactly of genuine replies that have no other flag and are no shorter than its requests |
| WireFormat.RequestReadExactly | server.go:202-226 | A server serves exactly the genuine packets with no other flag, a seqno, and the token and address of a connection; and takes exactly those with the close flag for requests to close |
| Varints.UvarintRoundTrip | params.go:180-191 | A 64-bit value is read back from its base 128 varint, and its length with it |
| Varints.UvarintLength | params.go:57-64 | A varint takes at most n bytes iff the value fits in n groups of seven bits |
| Varints.ZigZagRoundTrip | params.go:193-204 | Zigzag coding loses nothing |
| Varints.UvarintShortest | params.go:57-64 | `Uvarint` gives the shortest varint of the Protocol Buffers encoding with a given value, and the only one as short |
| Varints.ReadUvarintExactly | params.go:180-191 | A value is read iff the bytes start with a varint of it, of at most ten bytes and 64 bits |
| Varints.ReadUvarintShort | params.go:180-191 | The bytes are too few iff there are at most ten and none ends a varint |
| Varints.ZigZagMeans | params.go:65-66 | Shifting, and inverting the bits of negative numbers, codes 0, -1, 1, -2, ... as 0, 1, 2, 3, ... |
| Varints.UnZigZagExactly | params.go:193-204 | Each code is decoded to the one number that it stands for |
| Varints.PutUvarint | params.go:61-63 | Writes exactly the varint |
| ParamsCodec.ReadParam | params.go:115-178 | Reads one parameter as the specification does, every error included; unknown tags are skipped |
| ParamsCodec.ReadStringExactly | params.go:206-223 | A string is read iff its length and its bytes are there and it is not too long |
| ParamsCodec.ReadStringFails | params.go:206-223 | Otherwise the error is an overflow iff the length overflows or is too great |
| ParamsCodec.ParseParams | params.go:45-55 | Terminates within bounds on all bytes, and gives parameters iff the bytes are a message of tagged values, each a varint or a counted string, that make these parameters |
| ParamsCodec.PutString | params.go:225-233 | Writes the length and the bytes of the clipped string, none of them lost |
| ParamsCodec.Bytes | params.go:57-113 | Writes a message of the nonzero fields in the order of their tags 1 to 13: the shortest, and the only one as short |
| ParamsCodec.DecodeExactly | params.go:45-55 | Bytes are decoded to given parameters iff they are a message that means them |
| ParamsCodec.EncodeExactly | params.go:57-113 | The encoding is the shortest message of the fields sent |
| ParamsRoundTrip.DecodeOfEncode | params.go:45-113 | Decoding any encoded parameters gives them back with both strings clipped, or an error iff some number is out of range |
| ParamsRoundTrip.RoundTripExactly | params.go:45-113 | The round trip gives the same parameters iff they are in range |
| ParamsRoundTrip.ItemRoundTrip | params.go:115-178 | One tagged value reads back, clipped, whatever follows |
| ParamsRoundTrip.EncodingFits | params.go:10-113 | With 32-bit integers and enumerations in range at most 125 of the 128 bytes are written |
| Glob.GlobMatch | glob.go:18-55 | The greedy matcher accepts iff the pattern matches by the declarative meaning of `*` |
| Glob.MatchParts | glob.go:27-54 | The loop over the parts decides the rest of the pattern |
| Glob.LeftmostIsBest | glob.go:37-52 | Between stars the leftmost occurrence of a part decides |
| Glob.EarlierIsBetter | glob.go:37-52 | The exchange argument: an earlier occurrence before a star is as good as any |
| Glob.GlobAny | glob.go:9-16 | True iff some pattern matches |
| Negotiation.RestrictParams | sconn.go:448-472 | The restricted parameters, field by field |
| Negotiation.RestrictIdempotent | sconn.go:448-472 | Restricting twice changes nothing more |
| Negotiation.RestrictedIsNearest | sconn.go:448-472 | Duration, interval and length become the nearest permitted to those asked for; stamps become none or one at the midpoint only where they must (time.go:341-360) |
| Negotiation.Client.CheckParameters | client.go:185-275 | The error is the first fatal finding, the events are those before it, and there is no error iff nothing found is fatal |
| Negotiation.LooseAgreesExactly | client.go:185-275 | A valid loose client gets an answer and accepts it iff the server can build its filler, and Timeout is off or Timeout / 4 is at least its interval or 1s |
| Negotiation.ServerAgreesExactly | defaults.go:112-113 | A server suits every valid loose client iff Timeout is off or at least 4s, and no allowed glob lets an empty pattern through |
| Negotiation.StrictAgreesExactly | client.go:185-275 | A valid strict client gets an answer and accepts it iff it asked for nothing that the server restricts, and its fill is one that the server can build |
| Negotiation.Open | conn.go:168-252 | The handshake through the codec in both directions: no answer iff the server cannot build the filler, otherwise the granted parameters, and agreement iff the client accepts them |
| Negotiation.AnswerFits | sconn.go:105 | The server's answer fits the codec's buffer if the request does |
| Fills.NewFiller | filler.go:89-103 | What filler a string asks for, and the pattern filler built for it |
| Fills.EmptyPatternExactly | filler.go:117-132 | A string asks for an empty pattern iff it is `pattern:` or starts with `pattern::` |
| Fills.PatternFillExactly | filler.go:56-58 | `pattern:` and digits of either case ask for a pattern iff they are its hex digits, so a filler's own string asks for it |
| Negotiation.DefaultFillMeans | filler.go:41-44 | The default server fill is the string of the default pattern |
| Fills.ShortestReached | glob.go:18-55 | The shortest length of a string that starts with a given prefix and matches a glob is reached |
| Fills.ShortestIsLeast | glob.go:18-55 | No string that starts with the prefix and matches the glob is shorter |
| Fills.SafeGlobExactly | glob.go:18-55 | The check of a glob is exact: it passes iff the glob matches no string, up to a length, that asks for an empty pattern |
| Negotiation.BuildsExactly | sconn.go:62-73 | The server fails to build a filler iff the fill asks for an empty pattern and is allowed |
| Negotiation.SafeFillsExactly | filler.go:27-39 | The server can build a filler for every fill that the codec lets through iff no allowed glob lets an empty pattern through |
| Negotiation.AnyFillIsUnsafe | filler.go:32 | A server that allows any fill divides by zero on `pattern:`, asked for by a valid client |
| Serving.ClocklessPanics | timesrc.go:23-35 | Every server that allows stamps agrees with a valid client, strict or loose, that leaves out its clock, and panics on its first request |
| Serving.NeverPanicsExactly | time.go:110-121 | A server can stamp its replies to every client that it agrees with iff it allows no stamps (or its timeout of under 4ns suits nobody) |
| Serving.HeaderLengthIs | packet.go:471-487 | The length of the fields in a client's requests, by key, counters, stamps and clocks |
| Serving.PassesExactly | sconn.go:210-216 | The requests of a client, with the parameters that it was granted, get through iff the server's maximum length is off or at least the length of their fields |
| Serving.TakesAllExactly | sconn.go:210-216 | A server takes the requests of every client that it agrees with iff its maximum length is off or at least the longest fields that its stamps permit |
| Schedule.Sender.Send | client.go:365-447 | Terminates; targets follow from the sending times, are increasing multiples of Interval after Start, and lie before the end; at most ceil(Duration / Interval) rounds; packet n has seqno n modulo 2^32 |
| Schedule.TargetAdvances | client.go:413-425 | The next target lies beyond the last one if the timer woke at most half an interval early |
| Schedule.ProgressExactly | client.go:421-425 | The schedule makes progress for every wake-up iff timers wake at most half an interval, rounded up, too soon |
| Schedule.NearestThenNext | client.go:418-425 | The target is the one after the multiple nearest to the sending time, so none is left out or repeated |
| Schedule.PCountExactly | recorder.go:460-464 | `pcount` is the number of rounds, or one more if the interval divides the duration |
| Schedule.Sender.NextTarget | client.go:414-425 | The target is the one specified, beyond the last one and in the future |
| Schedule.Sender.Advance | client.go:400-404 | Every slot moves on to its next seqno, modulo 2^32 |
| Filler.PatternFiller.constructor | filler.go:27-39 | The buffer is the pattern repeated |
| Filler.PatternFiller.Read | filler.go:46-54 | Fills the buffer with the next bytes of the endless repetition, for any sequence of sizes |
| Filler.RepeatedAt | filler.go:46-54 | Byte t of the stream is byte t mod n of the pattern |
| Filler.WrappedIsModulo | filler.go:51 | The position is the number of bytes read modulo the pattern's length |

## Left out

- Sockets, dialing, listening, DSCP, TTL and DF options, interfaces, MTU: input and output.
- Command line, printing, JSON, percentages, bitrates, averagers: output and formatting.
- Real clocks and timers: readings are inputs. The schedule assumes a monotone clock and a bound on early wake-ups.
- `send_synced` and the one-way mode: shared-memory frames, and a recorder of its own (onewayrecorder.go).
- MD5 and the key: the keyed hash is any function from bytes to 16 bytes. Tokens are inputs.
- Adding, expiring and removing connections (`connmgr`): the server's live connections are an input.
- Floating point: rates and statistics are exact reals, so rounding in `push` and in the token bucket is not modelled.
- int64 overflow in the send schedule: times are unbounded integers there.
- Counters of Go's type `uint` (N, Duplicates, LatePackets) are unbounded.
- TimerErrorStats, IPDV, medians and handlers, which nothing modelled here depends on.
- Locks: the recorder's calls are atomic steps in any interleaving.
- Fillers: those registered by default. The text of their errors is not modelled.
- Negotiation.Open: leaves out tokens, retransmission, and clients that only probe with the close flag. It assumes that the encoded parameters fit the open packets, which hold 92 bytes at most (conn.go:188, conn.go:219).
- Negotiation.RestrictParams: returns new parameters instead of changing the caller's, so aliasing of `*Params` is not captured.
- ParamsCodec.ReadParam: returns new parameters instead of assigning fields; after an error they are discarded, as `parseParams` does.
- Packets.Packet.UpdateHMAC: a packet with the field but no key is excluded, because the code panics on it (`Packets.Packet.RemovingHMACPanics`).
- EchoReply.Finish: the filler's bytes are arbitrary; PatternFiller is proved on its own.
- Network.LostDownIsSound: requests that the server rejects before it judges their seqno (too long, unknown token, other address) count as dropped.
- Schedule.Sender.Send: counts records instead of keeping them; the recorder is proved on its own.
