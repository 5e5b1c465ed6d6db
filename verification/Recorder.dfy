/** The client's recorder: one record for each packet sent, and running statistics. */
module Recording {
  import opened Numbers
  import opened Stats
  import opened Times

  datatype RoundTripData = RoundTripData(client: Timestamp, server: Timestamp, receivedWindow: u64, ecn: int) {
    predicate ReplyReceived() { !client.receive.IsZero() }

    predicate IsWallTimestamped() { server.receive.wall != 0 || server.send.wall != 0 }

    function ServerProcessingTime(): i64 {
      if server.IsBothMono() then Wrap(server.send.mono - server.receive.mono)
      else if server.IsBothWall() then Wrap(server.send.wall - server.receive.wall)
      else INVALID_DURATION
    }

    function RTT(): i64 {
      if !ReplyReceived() then INVALID_DURATION
      else
        var rtt := Wrap(client.receive.mono - client.send.mono);
        if ServerProcessingTime() != INVALID_DURATION then Wrap(rtt - ServerProcessingTime()) else rtt
    }

    function SendDelay(): i64 {
      if IsWallTimestamped() then Wrap(server.BestReceive().wall - client.send.wall) else INVALID_DURATION
    }

    function ReceiveDelay(): i64 {
      if IsWallTimestamped() then Wrap(client.receive.wall - server.BestSend().wall) else INVALID_DURATION
    }
  }

  /** What `recordReceive` reads of a reply. The clock that gives `trcvd` never reads zero. */
  datatype Reply = Reply(seqno: u32, trcvd: Time, server: Timestamp,
                         count: Option<u32>, window: Option<u64>, length: nat, ecn: int)

  /** A record's contents when `reply` is the first to answer it. */
  function Answered(rtd: RoundTripData, reply: Reply): RoundTripData {
    RoundTripData(Timestamp(reply.trcvd, rtd.client.send), reply.server,
                  if reply.window.Some? then reply.window.value else rtd.receivedWindow, reply.ecn)
  }

  function Unanswered(tsend: Time): RoundTripData {
    RoundTripData(Timestamp(ZERO_TIME, tsend), Timestamp(ZERO_TIME, ZERO_TIME), 0, 0)
  }

  datatype RecorderState = RecorderState(
    roundTripData: seq<RoundTripData>,
    firstSend: Time, lastSent: Time, firstReceived: Time, lastReceived: Time,
    sendCalls: seq<i64>, rtts: seq<i64>, sendDelays: seq<i64>, receiveDelays: seq<i64>,
    serverPacketsReceived: u32, bytesSent: u64, bytesReceived: u64,
    duplicates: nat, latePackets: nat, lastSeqno: u32)

  const EMPTY: RecorderState :=
    RecorderState([], ZERO_TIME, ZERO_TIME, ZERO_TIME, ZERO_TIME, [], [], [], [], 0, 0, 0, 0, 0, 0)

  function PreSend(st: RecorderState, tsend: Time): RecorderState {
    st.(roundTripData := st.roundTripData + [Unanswered(tsend)],
        firstSend := if st.firstSend.IsZero() then tsend else st.firstSend)
  }

  function RemoveLastStamps(st: RecorderState): RecorderState
    requires st.roundTripData != []
  {
    st.(roundTripData := st.roundTripData[..|st.roundTripData| - 1])
  }

  function PostSend(st: RecorderState, tsend: Time, tsent: Time, n: nat): RecorderState
    requires tsent.Comparable(tsend)
  {
    st.(sendCalls := st.sendCalls + [tsent.Sub(tsend)],
        bytesSent := AddU64(st.bytesSent, n),
        lastSent := tsent)
  }

  /** A reply is rejected when its seqno has no record. */
  predicate Expected(st: RecorderState, seqno: u32) { seqno < |st.roundTripData| }

  /** The updates of a first reply, other than those to the statistics. */
  function Note(st: RecorderState, reply: Reply): RecorderState
    requires Expected(st, reply.seqno)
  {
    st.(roundTripData := st.roundTripData[reply.seqno := Answered(st.roundTripData[reply.seqno], reply)],
        firstReceived := if st.firstReceived.IsZero() then reply.trcvd else st.firstReceived,
        lastReceived := reply.trcvd,
        serverPacketsReceived := if reply.count.Some? then reply.count.value else st.serverPacketsReceived,
        bytesReceived := AddU64(st.bytesReceived, reply.length),
        latePackets := if reply.seqno < st.lastSeqno then st.latePackets + 1 else st.latePackets,
        lastSeqno := reply.seqno)
  }

  function PushDelays(st: RecorderState, rtd: RoundTripData): RecorderState {
    st.(rtts := st.rtts + [rtd.RTT()],
        sendDelays := if rtd.server.BestReceive().wall != 0 then st.sendDelays + [rtd.SendDelay()] else st.sendDelays,
        receiveDelays :=
          if rtd.server.BestSend().wall != 0 then st.receiveDelays + [rtd.ReceiveDelay()] else st.receiveDelays)
  }

  function FirstReply(st: RecorderState, reply: Reply): RecorderState
    requires Expected(st, reply.seqno)
  {
    PushDelays(Note(st, reply), Answered(st.roundTripData[reply.seqno], reply))
  }

  /** The transfer of ECN, which duplicates make too. */
  function Marked(st: RecorderState, reply: Reply): RecorderState
    requires Expected(st, reply.seqno)
  {
    st.(roundTripData := st.roundTripData[reply.seqno := st.roundTripData[reply.seqno].(ecn := reply.ecn)])
  }

  lemma FirstReplyMarks(st: RecorderState, reply: Reply)
    requires Expected(st, reply.seqno)
    ensures FirstReply(Marked(st, reply), reply) == FirstReply(st, reply)
  {
    assert Marked(st, reply).roundTripData[reply.seqno := Answered(st.roundTripData[reply.seqno], reply)]
        == st.roundTripData[reply.seqno := Answered(st.roundTripData[reply.seqno], reply)];
  }

  function Receive(st: RecorderState, reply: Reply): RecorderState {
    if !Expected(st, reply.seqno) then st
    else if st.roundTripData[reply.seqno].ReplyReceived()
    then Marked(st, reply).(duplicates := st.duplicates + 1)
    else FirstReply(st, reply)
  }

  // What is measured

  /** A pair of clocks, by what they would show at instant 0. */
  datatype Clocks = Clocks(wall: int, mono: int) {
    function At(instant: int): Time { Time(Wrap(instant + wall), Wrap(instant + mono)) }

    /** The clocks that `t` has were read at `instant`. */
    predicate Gave(t: Time, instant: int) {
      && (t.wall != 0 ==> t.wall == Wrap(instant + wall))
      && (t.mono != 0 ==> t.mono == Wrap(instant + mono))
    }
  }

  /** A packet that was sent at an instant `sent`, took `up` to reach the server, was answered after `processing`,
      and took `down` to come back. The two hosts have their own clocks. */
  datatype Flight = Flight(client: Clocks, server: Clocks, sent: int, up: int, processing: int, down: int) {
    /** What the client knows of this flight when the reply arrives. */
    predicate Gave(tsend: Time, reply: Reply) {
      && tsend == client.At(sent)
      && reply.trcvd == client.At(sent + up + processing + down) && !reply.trcvd.IsZero()
      && server.Gave(reply.server.receive, sent + up)
      && server.Gave(reply.server.send, sent + up + processing)
    }

    /** The time on the way, if the server's stamps tell the processing time; otherwise the whole time. */
    function RoundTrip(ts: Timestamp): i64 {
      if TellsProcessing(ts) && Wrap(processing) != INVALID_DURATION then Wrap(up + down)
      else Wrap(up + processing + down)
    }

    /** Right but for the difference between the wall clocks, if the server stamped the arrival. */
    function SendDelay(ts: Timestamp): i64 {
      Wrap(up + (if ts.receive.IsZero() then processing else 0) + server.wall - client.wall)
    }

    function ReceiveDelay(ts: Timestamp): i64 {
      Wrap(down + (if ts.send.IsZero() then processing else 0) + client.wall - server.wall)
    }
  }

  predicate TellsProcessing(ts: Timestamp) {
    (ts.receive.mono != 0 && ts.send.mono != 0) || (ts.receive.wall != 0 && ts.send.wall != 0)
  }

  /** Whether the arrival, or the reply in its stead, was stamped by the wall clock. */
  predicate TellsArrival(ts: Timestamp) {
    ts.receive.wall != 0 || (ts.receive.IsZero() && ts.send.wall != 0)
  }

  predicate TellsReply(ts: Timestamp) {
    ts.send.wall != 0 || (ts.send.IsZero() && ts.receive.wall != 0)
  }

  lemma WrapDifference(a: int, b: int)
    ensures Wrap(Wrap(a) - Wrap(b)) == Wrap(a - b)
  {
    var p := (a + 0x8000_0000_0000_0000) / 0x1_0000_0000_0000_0000;
    var q := (b + 0x8000_0000_0000_0000) / 0x1_0000_0000_0000_0000;
    assert Wrap(a) - Wrap(b) == a - b - (p - q) * 0x1_0000_0000_0000_0000;
  }

  /** What a first reply adds to the statistics, whatever the clocks of the hosts show. */
  ghost predicate Measures(was: RecorderState, reply: Reply, now: RecorderState, f: Flight) {
    && now.rtts == was.rtts + [f.RoundTrip(reply.server)]
    && now.sendDelays == was.sendDelays + (if TellsArrival(reply.server) then [f.SendDelay(reply.server)] else [])
    && now.receiveDelays == was.receiveDelays
                            + (if TellsReply(reply.server) then [f.ReceiveDelay(reply.server)] else [])
  }

  lemma FirstReplyMeasures(st: RecorderState, reply: Reply, f: Flight)
    requires Expected(st, reply.seqno) && !st.roundTripData[reply.seqno].ReplyReceived()
    requires f.Gave(st.roundTripData[reply.seqno].client.send, reply)
    ensures Measures(st, reply, Receive(st, reply), f)
  {
    var rtd := Answered(st.roundTripData[reply.seqno], reply);
    RoundTripMeasured(rtd, reply, f);
    DelaysMeasured(rtd, reply, f);
  }

  lemma RoundTripMeasured(rtd: RoundTripData, reply: Reply, f: Flight)
    requires rtd.client.receive == reply.trcvd && rtd.server == reply.server && f.Gave(rtd.client.send, reply)
    ensures rtd.RTT() == f.RoundTrip(reply.server)
  {
    var arrived, left := f.sent + f.up, f.sent + f.up + f.processing;
    WrapDifference(left + f.server.mono, arrived + f.server.mono);
    WrapDifference(left + f.server.wall, arrived + f.server.wall);
    WrapDifference(left + f.down + f.client.mono, f.sent + f.client.mono);
    WrapDifference(f.up + f.processing + f.down, f.processing);
    hide Wrap;
  }

  lemma DelaysMeasured(rtd: RoundTripData, reply: Reply, f: Flight)
    requires rtd.client.receive == reply.trcvd && rtd.server == reply.server && f.Gave(rtd.client.send, reply)
    ensures TellsArrival(reply.server) <==> rtd.server.BestReceive().wall != 0
    ensures TellsReply(reply.server) <==> rtd.server.BestSend().wall != 0
    ensures TellsArrival(reply.server) ==> rtd.SendDelay() == f.SendDelay(reply.server)
    ensures TellsReply(reply.server) ==> rtd.ReceiveDelay() == f.ReceiveDelay(reply.server)
  {
    var arrived, left := f.sent + f.up, f.sent + f.up + f.processing;
    WrapDifference(arrived + f.server.wall, f.sent + f.client.wall);
    WrapDifference(left + f.server.wall, f.sent + f.client.wall);
    WrapDifference(left + f.down + f.client.wall, arrived + f.server.wall);
    WrapDifference(left + f.down + f.client.wall, left + f.server.wall);
    hide Wrap;
  }

  lemma AllMeasured(st: RecorderState, reply: Reply)
    ensures Expected(st, reply.seqno) && !st.roundTripData[reply.seqno].ReplyReceived() ==>
              forall f: Flight :: f.Gave(st.roundTripData[reply.seqno].client.send, reply) ==>
                && Receive(st, reply).rtts == st.rtts + [f.RoundTrip(reply.server)]
                && Measures(st, reply, Receive(st, reply), f)
  {
    if Expected(st, reply.seqno) && !st.roundTripData[reply.seqno].ReplyReceived() {
      forall f: Flight | f.Gave(st.roundTripData[reply.seqno].client.send, reply)
        ensures Measures(st, reply, Receive(st, reply), f)
      {
        FirstReplyMeasures(st, reply, f);
      }
    }
  }

  /** The documentation has the processing time subtracted only if it does not exceed the round-trip time. The code
      subtracts it in any case, so the result is negative exactly if the processing time is the longer. */
  lemma NegativeExactly(rtd: RoundTripData)
    requires rtd.ReplyReceived() && rtd.server.IsBothMono()
    requires 0 <= rtd.client.receive.mono - rtd.client.send.mono < INVALID_DURATION
    requires 0 <= rtd.server.send.mono - rtd.server.receive.mono < INVALID_DURATION
    ensures rtd.RTT() < 0
       <==> rtd.server.send.mono - rtd.server.receive.mono > rtd.client.receive.mono - rtd.client.send.mono
  {
  }

  /** A send call that the clocks saw from `from` to `to`. */
  lemma SendCallMeasures(st: RecorderState, c: Clocks, from: int, to: int, n: nat)
    requires c.At(to).Comparable(c.At(from))
    ensures PostSend(st, c.At(from), c.At(to), n).sendCalls == st.sendCalls + [Wrap(to - from)]
  {
    WrapDifference(to + c.mono, from + c.mono);
    WrapDifference(to + c.wall, from + c.wall);
    hide Wrap;
  }

  class Recorder {
    var firstSend: Time
    var lastSent: Time
    var firstReceived: Time
    var lastReceived: Time
    const sendCallStats: DurationStats
    const rttStats: DurationStats
    const sendDelayStats: DurationStats
    const receiveDelayStats: DurationStats
    var serverPacketsReceived: u32
    var bytesSent: u64
    var bytesReceived: u64
    var duplicates: nat
    var latePackets: nat
    var roundTripData: seq<RoundTripData>
    var lastSeqno: u32

    ghost function Repr(): set<object> {
      {this, sendCallStats, rttStats, sendDelayStats, receiveDelayStats}
    }

    ghost predicate Valid()
      reads Repr()
    {
      && sendCallStats !in {rttStats, sendDelayStats, receiveDelayStats}
      && rttStats !in {sendDelayStats, receiveDelayStats}
      && sendDelayStats != receiveDelayStats
      && sendCallStats.Valid() && rttStats.Valid() && sendDelayStats.Valid() && receiveDelayStats.Valid()
    }

    ghost function State(): RecorderState
      reads Repr()
    {
      RecorderState(roundTripData, firstSend, lastSent, firstReceived, lastReceived,
                    sendCallStats.pushed, rttStats.pushed, sendDelayStats.pushed, receiveDelayStats.pushed,
                    serverPacketsReceived, bytesSent, bytesReceived, duplicates, latePackets, lastSeqno)
    }

    constructor ()
      ensures Valid() && fresh(Repr()) && State() == EMPTY
    {
      sendCallStats := new DurationStats();
      rttStats := new DurationStats();
      sendDelayStats := new DurationStats();
      receiveDelayStats := new DurationStats();
      firstSend, lastSent, firstReceived, lastReceived := ZERO_TIME, ZERO_TIME, ZERO_TIME, ZERO_TIME;
      serverPacketsReceived, bytesSent, bytesReceived, duplicates, latePackets := 0, 0, 0, 0, 0;
      roundTripData, lastSeqno := [], 0;
    }

    method RecordPreSend(tsend: Time)
      requires Valid()
      modifies this
      ensures Valid() && State() == PreSend(old(State()), tsend)
    {
      var rtd := RoundTripData(Timestamp(ZERO_TIME, ZERO_TIME), Timestamp(ZERO_TIME, ZERO_TIME), 0, 0);
      roundTripData := roundTripData + [rtd.(client := Timestamp(ZERO_TIME, tsend))];
      if firstSend.IsZero() {
        firstSend := tsend;
      }
    }

    method RemoveLast()
      requires Valid() && roundTripData != []
      modifies this
      ensures Valid() && State() == RemoveLastStamps(old(State()))
    {
      roundTripData := roundTripData[..|roundTripData| - 1];
    }

    method RecordPostSend(tsend: Time, tsent: Time, n: nat)
      requires Valid() && tsent.Comparable(tsend)
      modifies this, sendCallStats
      ensures Valid() && State() == PostSend(old(State()), tsend, tsent, n)
    {
      sendCallStats.Push(tsent.Sub(tsend));
      bytesSent := AddU64(bytesSent, n);
      lastSent := tsent;
    }

    method RecordDelays(rtd: RoundTripData)
      requires Valid()
      modifies rttStats, sendDelayStats, receiveDelayStats
      ensures Valid() && State() == PushDelays(old(State()), rtd)
    {
      hide DurationStats.Valid, RoundTripData.RTT, RoundTripData.SendDelay, RoundTripData.ReceiveDelay;
      rttStats.Push(rtd.RTT());
      if rtd.server.BestReceive().wall != 0 {
        sendDelayStats.Push(rtd.SendDelay());
      }
      if rtd.server.BestSend().wall != 0 {
        receiveDelayStats.Push(rtd.ReceiveDelay());
      }
    }

    method RecordReceive(reply: Reply) returns (ok: bool)
      requires Valid()
      modifies Repr()
      ensures Valid() && State() == Receive(old(State()), reply)
      ensures ok == Expected(old(State()), reply.seqno)
      ensures ok && !old(roundTripData)[reply.seqno].ReplyReceived() ==>
                forall f: Flight :: f.Gave(old(roundTripData)[reply.seqno].client.send, reply) ==>
                  && rttStats.pushed == old(rttStats.pushed) + [f.RoundTrip(reply.server)]
                  && Measures(old(State()), reply, State(), f)
    {
      hide Measures, Flight.Gave, Flight.RoundTrip;
      AllMeasured(State(), reply);
      var seqno := reply.seqno;
      if seqno >= |roundTripData| {
        return false;
      }
      var late := seqno < lastSeqno;
      FirstReplyMarks(State(), reply);
      roundTripData := roundTripData[seqno := roundTripData[seqno].(ecn := reply.ecn)];
      if !roundTripData[seqno].client.receive.IsZero() {
        duplicates := duplicates + 1;
        return true;
      }
      RecordFirst(reply, late);
      return true;
    }

    method RecordFirst(reply: Reply, late: bool)
      requires Valid() && Expected(State(), reply.seqno) && late == (reply.seqno < lastSeqno)
      requires roundTripData[reply.seqno].ecn == reply.ecn
      modifies Repr()
      ensures Valid() && State() == FirstReply(old(State()), reply)
    {
      RecordNote(reply, late);
      RecordDelays(roundTripData[reply.seqno]);
    }

    /** The updates of a first reply, other than those to the statistics. */
    method RecordNote(reply: Reply, late: bool)
      requires Expected(State(), reply.seqno) && late == (reply.seqno < lastSeqno)
      requires roundTripData[reply.seqno].ecn == reply.ecn
      modifies this
      ensures State() == Note(old(State()), reply)
    {
      hide AddU64, Time.IsZero, Answered;
      if late {
        latePackets := latePackets + 1;
      }
      lastSeqno := reply.seqno;
      RecordTimes(reply.trcvd);
      if reply.count.Some? {
        serverPacketsReceived := reply.count.value;
      }
      RecordAnswer(reply);
      bytesReceived := AddU64(bytesReceived, reply.length);
    }

    method RecordTimes(trcvd: Time)
      modifies this`firstReceived, this`lastReceived
      ensures firstReceived == (if old(firstReceived).IsZero() then trcvd else old(firstReceived))
      ensures lastReceived == trcvd
    {
      if firstReceived.IsZero() {
        firstReceived := trcvd;
      }
      lastReceived := trcvd;
    }

    /** The updates of the record itself. */
    method RecordAnswer(reply: Reply)
      requires reply.seqno < |roundTripData| && roundTripData[reply.seqno].ecn == reply.ecn
      modifies this`roundTripData
      ensures roundTripData
           == old(roundTripData)[reply.seqno := Answered(old(roundTripData)[reply.seqno], reply)]
    {
      var rtd := roundTripData[reply.seqno];
      rtd := rtd.(client := Timestamp(reply.trcvd, rtd.client.send), server := reply.server);
      if reply.window.Some? {
        rtd := rtd.(receivedWindow := reply.window.value);
      }
      roundTripData := roundTripData[reply.seqno := rtd];
    }
  }
}
