/** The echo reply: what the server puts into it, and what the client reads back. */
module EchoReply {
  import opened Fbufs
  import opened Layout
  import opened Numbers
  import opened Packets
  import opened Times

  /** The part of the negotiated parameters that shapes a reply. */
  datatype ReplyParams = ReplyParams(stats: ReceivedStats, at: StampAt, clock: ClockParam, length: int)

  /** What the server has counted when it replies. */
  datatype Counters = Counters(count: u32, window: u64)

  // Server

  /** The fields of an echo request. */
  function RequestFields(hmac: Option<Hash>): set<nat> { InitSet(hmac) + {F_CONN_TOKEN, F_SEQNO} }

  /** Whether a reply can be stamped. `TimeSource.Now` and `KeepClocks` panic on clock 0. */
  predicate Stampable(prm: ReplyParams) { prm.at == AT_NONE || prm.clock != 0 }

  predicate CanStamp(prm: ReplyParams, trcvd: Time, now: Time) {
    Stampable(prm) && (prm.at != AT_NONE ==> trcvd.Comparable(now))
  }

  /** The server's stamps. The time of arrival has both clocks, and `now` has those of `prm.clock`. */
  function ReplyStamps(prm: ReplyParams, trcvd: Time, now: Time): Timestamp
    requires CanStamp(prm, trcvd, now)
  {
    if prm.at == AT_NONE then Timestamp(ZERO_TIME, ZERO_TIME)
    else if prm.at == AT_MIDPOINT then
      var mt := trcvd.Midpoint(now);
      Timestamp(mt, mt)
    else
      Timestamp(if Has(prm.at, AT_RECEIVE) then trcvd.KeepClocks(prm.clock) else ZERO_TIME,
                if Has(prm.at, AT_SEND) then now else ZERO_TIME)
  }

  /** What the server's stamps should be: the arrival and the reply, or the time halfway between them, with both
      clocks. */
  ghost predicate ServerStamps(prm: ReplyParams, trcvd: Time, now: Time, ts: Timestamp) {
    if prm.at == AT_MIDPOINT then Halfway(trcvd, now, ts.receive) && ts.send == ts.receive
    else
      && ts.receive == (if prm.at == AT_RECEIVE || prm.at == AT_BOTH then Only(trcvd, prm.clock) else ZERO_TIME)
      && ts.send == if prm.at == AT_SEND || prm.at == AT_BOTH then now else ZERO_TIME
  }

  lemma ReplyStampsExactly(prm: ReplyParams, trcvd: Time, now: Time, ts: Timestamp)
    requires CanStamp(prm, trcvd, now)
    ensures ServerStamps(prm, trcvd, now, ts) <==> ts == ReplyStamps(prm, trcvd, now)
  {
    if prm.at == AT_MIDPOINT {
      MidpointExactly(trcvd, now, ts.receive);
    }
    hide Halfway, Time.Midpoint;
  }

  /** `KeepClocks(c)`, and also `TimeSource.Now(c)` if the clocks show `t`. `None` is a panic. */
  function TryKeep(t: Time, c: ClockParam): Option<Time> { if c == 0 then None else Some(t.KeepClocks(c)) }

  /** The server's stamps, step by step, if a request arrives at `trcvd` and is stamped at `shown`. */
  function TryStamps(prm: ReplyParams, trcvd: Time, shown: Time): Option<Timestamp> {
    if prm.at == AT_NONE then Some(Timestamp(ZERO_TIME, ZERO_TIME))
    else if prm.at == AT_MIDPOINT then
      match TryKeep(shown, prm.clock)
      case None => None
      case Some(now) =>
        if !trcvd.Comparable(now) then None else Some(Timestamp(trcvd.Midpoint(now), trcvd.Midpoint(now)))
    else
      var receive := if Has(prm.at, AT_RECEIVE) then TryKeep(trcvd, prm.clock) else Some(ZERO_TIME);
      var send := if Has(prm.at, AT_SEND) then TryKeep(shown, prm.clock) else Some(ZERO_TIME);
      if receive.None? || send.None? then None else Some(Timestamp(receive.value, send.value))
  }

  /** Both clocks show something. */
  predicate BothShow(t: Time) { t.wall != 0 && t.mono != 0 }

  function WithStats(h: Header, stats: ReceivedStats, c: Counters): Header {
    var h := if Has(stats, COUNT) then h.(count := Some(c.count)) else h;
    if Has(stats, WINDOW) then h.(window := Some(c.window)) else h
  }

  function OnWithStats(on: set<nat>, stats: ReceivedStats): set<nat> {
    var on := if Has(stats, COUNT) then on + {F_RCOUNT} else on;
    if Has(stats, WINDOW) then on + {F_RWINDOW} else on
  }

  method SetStats(p: Packet, stats: ReceivedStats, c: Counters)
    requires p.Valid() && p.Tight()
    modifies p.fb`fields, p.fb`on, p.fb`blen, p.fb.data
    ensures p.Valid() && p.Tight() && p.Head() == WithStats(old(p.Head()), stats, c)
    ensures p.fb.on == OnWithStats(old(p.fb.on), stats)
  {
    hide Parse, Caps, CapSum, FieldOf, Has, Values, Offset;
    if Has(stats, COUNT) {
      p.TightRoom(F_RCOUNT);
      p.SetReceivedCount(c.count);
    }
    if Has(stats, WINDOW) {
      p.TightRoom(F_RWINDOW);
      p.SetReceivedWindow(c.window);
    }
  }

  method SetStamps(p: Packet, prm: ReplyParams, trcvd: Time, now: Time)
    requires p.Valid() && p.Tight() && CanStamp(prm, trcvd, now)
    requires forall f :: f in p.fb.on ==> f < F_RWALL
    modifies p.fb`fields, p.fb`on, p.fb`blen, p.fb.data
    ensures p.Valid() && p.Tight()
    ensures p.Head() == if prm.at == AT_NONE then old(p.Head())
                        else Stamped(old(p.Head()), prm.at, ReplyStamps(prm, trcvd, now))
    ensures p.fb.on == if prm.at == AT_NONE then old(p.fb.on)
                       else OnStamped(old(p.fb.on), prm.at, ReplyStamps(prm, trcvd, now))
  {
    hide Parse, Caps, CapSum, FieldOf, Has, Values, Offset, Stamped, OnStamped;
    if prm.at != AT_NONE {
      var rt, st := ZERO_TIME, ZERO_TIME;
      if prm.at == AT_MIDPOINT {
        var mt := trcvd.Midpoint(now);
        rt, st := mt, mt;
      } else {
        if Has(prm.at, AT_RECEIVE) {
          rt := trcvd.KeepClocks(prm.clock);
        }
        if Has(prm.at, AT_SEND) {
          st := now;
        }
      }
      p.TightRoomAll(p.fb.on, p.fb.tlen, StampList(prm.at, Timestamp(rt, st)));
      p.SetTimestamp(prm.at, Timestamp(rt, st));
    } else {
      p.RemoveTimestamps();
    }
  }

  /** The header of a reply to a request with header `h`, before it is signed. */
  function ReplyHead(h: Header, closed: bool, prm: ReplyParams, c: Counters, trcvd: Time, now: Time): Header
    requires CanStamp(prm, trcvd, now)
  {
    var h := h.(flags := SetFlag(h.flags, FL_REPLY));
    var h := if closed then h.(flags := SetFlag(h.flags, FL_CLOSE)) else h;
    var h := WithStats(h, prm.stats, c);
    if prm.at == AT_NONE then h else Stamped(h, prm.at, ReplyStamps(prm, trcvd, now))
  }

  function ReplyFields(hmac: Option<Hash>, prm: ReplyParams, trcvd: Time, now: Time): set<nat>
    requires CanStamp(prm, trcvd, now)
  {
    var on := OnWithStats(RequestFields(hmac), prm.stats);
    if prm.at == AT_NONE then on else OnStamped(on, prm.at, ReplyStamps(prm, trcvd, now))
  }

  /** Turns the request in `p` into its reply, as far as the fields go. */
  method FillReply(p: Packet, closed: bool, prm: ReplyParams, c: Counters, trcvd: Time, now: Time)
    requires p.Valid() && p.fb.on == RequestFields(p.hmac) && CanStamp(prm, trcvd, now)
    modifies p.fb, p.fb.data
    ensures p.Valid() && p.Tight() && p.fb.on == ReplyFields(p.hmac, prm, trcvd, now)
    ensures p.Head() == ReplyHead(old(p.Head()), closed, prm, c, trcvd, now)
    ensures ServerStamps(prm, trcvd, now, ReplyStamps(prm, trcvd, now))
  {
    hide Parse, Caps, CapSum, FieldOf, Has, Values, Offset, End, Stamped, OnStamped, SetFlag;
    hide ServerStamps, ReplyStamps;
    ReplyStampsExactly(prm, trcvd, now, ReplyStamps(prm, trcvd, now));
    p.SetFlagBits(FL_REPLY);
    if closed {
      p.SetFlagBits(FL_CLOSE);
    }
    var l := p.fb.SetLen(0);
    SetStats(p, prm.stats, c);
    hide WithStats;
    SetStamps(p, prm, trcvd, now);
  }

  /** The length of a packet whose fields take `flen` bytes. */
  function PaddedLength(length: int, flen: nat, cap: nat): nat {
    if length <= flen then flen else if length > cap then cap else length
  }

  /** Pads a packet to its length and signs it. */
  method Finish(p: Packet, length: int)
    requires p.Valid() && (p.hmac.Some? <==> F_HMAC in p.fb.on)
    modifies p.fb, p.fb.data
    ensures p.Valid() && p.fb.on == old(p.fb.on)
    ensures p.fb.blen == PaddedLength(length, p.fb.Flen(), p.fb.data.Length)
    ensures p.hmac.Some? ==>
              && Authentic(p.hmac.value, p.fb.Contents())
              && p.Head() == old(p.Head()).(flags := SetFlag(old(p.Head()).flags, FL_HMAC), mac := p.Head().mac)
    ensures p.hmac.None? ==> p.Head() == old(p.Head())
  {
    CapFacts();
    hide Parse, Caps, CapSum, FieldOf, Values, Offset, SetFlag, Authentic, End;
    var l := p.fb.SetLen(length);
    var flen := p.fb.SumLens();
    var fill := Zeros(l - flen);
    fill :| |fill| == l - flen;
    p.fb.SetPayload(fill);
    assert p.hmac.Some? ==> p.fb.on + {F_HMAC} == p.fb.on;
    p.UpdateHMAC();
  }

  // Client

  /** The fields that the client expects, from the negotiated parameters alone. */
  function ClientFields(hmac: Option<Hash>, prm: ReplyParams): set<nat> {
    RequestFields(hmac) + StatsFields(prm.stats) + StampFields(prm.at, prm.clock)
  }

  datatype Received =
    | ReadFailed(error: PacketError)
    | ExpectedReplyFlag
    | ServerClosed
    | UnexpectedOpenFlag
    | ShortReply
    | StampAtMismatch
    | ClockMismatch
    | Answer(stamps: Timestamp)

  /** What the client makes of a packet's flags. */
  function FlagError(flags: byte): Option<Received> {
    if !HasFlag(flags, FL_REPLY) then Some(ExpectedReplyFlag)
    else if HasFlag(flags, FL_CLOSE) then Some(ServerClosed)
    else if HasFlag(flags, FL_OPEN) then Some(UnexpectedOpenFlag)
    else None
  }

  /** What the client makes of a packet before it looks at the optional fields. */
  function EarlyError(hmac: Option<Hash>, c: bytes, bound: int): Option<Received> {
    var e := ReadError(hmac, c);
    if e.Some? then Some(ReadFailed(e.value))
    else if FlagError(c[3]).Some? then FlagError(c[3])
    else if |c| < bound then Some(ShortReply)
    else None
  }

  /** What the client makes of the stamps of a reply. */
  function JudgeStamps(h: Header, prm: ReplyParams): Received {
    if StampAtOf(h) != prm.at then StampAtMismatch
    else if prm.at != AT_NONE && ClockOf(h) != prm.clock then ClockMismatch
    else Answer(TimestampOf(h))
  }

  /** A packet's bytes after its digest has been checked. */
  function Checked(hmac: Option<Hash>, c: bytes): bytes
    requires hmac.Some? ==> |c| >= MAC_END
  {
    if hmac.Some? then Blanked(c) else c
  }

  /** `wire` is what was read from the network: as much of a packet as fits the buffer. No reply may be shorter than
      `bound`, which is the length of the client's requests. */
  method ReceiveReply(p: Packet, wire: bytes, prm: ReplyParams, bound: int) returns (r: Received)
    requires p.fb.Valid() && p.fb.caps == Caps() && |wire| <= p.fb.data.Length
    modifies p.fb, p.fb.data
    ensures EarlyError(p.hmac, wire, bound).Some? ==> r == EarlyError(p.hmac, wire, bound).value
    ensures EarlyError(p.hmac, wire, bound).None? ==>
              && p.Shaped() && p.fb.on == ClientFields(p.hmac, prm) && p.fb.blen == |wire| >= bound
              && ReadError(p.hmac, wire).None? && p.fb.data[..][..|wire|] == Checked(p.hmac, wire)
              && r == JudgeStamps(p.Head(), prm)
    ensures r.Answer? && bound >= End(Caps(), ClientFields(p.hmac, prm)) ==> p.Valid()
  {
    hide Caps, CapSum, FieldOf, ReadError, FlagError, Parse, Values, Checked, StatsFields, StampFields, JudgeStamps;
    var err := ReadPacket(p, wire);
    if err.Some? {
      return ReadFailed(err.value);
    }
    var ferr := CheckFlags(p.Flags());
    if ferr.Some? {
      return ferr.value;
    }
    AddReplyFields(p);
    if p.fb.blen < bound {
      return ShortReply;
    }
    p.AddReceivedStatsFields(prm.stats);
    p.AddTimestampFields(prm.at, prm.clock);
    r := ReadStamps(p, prm);
  }

  method ReadPacket(p: Packet, wire: bytes) returns (err: Option<PacketError>)
    requires p.fb.Valid() && p.fb.caps == Caps() && |wire| <= p.fb.data.Length
    modifies p.fb, p.fb.data
    ensures err == ReadError(p.hmac, wire)
    ensures err.None? ==>
              && p.Valid() && p.Shaped() && p.fb.on == InitSet(p.hmac) && p.fb.blen == |wire|
              && p.Head().flags == wire[3] && p.fb.data[..][..|wire|] == Checked(p.hmac, wire)
  {
    hide *;
    var n := p.fb.ReadTo(wire);
    assert wire[..n] == wire;
    assert n > 3 ==> p.fb.data[..][3] == p.fb.data[..][..n][3];
    err := p.ReadReset(n);
    CheckedMeans(p.hmac, wire);
    if err.None? {
      p.ValidMeans();
    }
  }

  lemma CheckedMeans(hmac: Option<Hash>, c: bytes)
    ensures ReadError(hmac, c).None? ==>
              && |c| > 3 && (hmac.Some? ==> |c| >= MAC_END)
              && Checked(hmac, c) == if hmac.Some? then Blanked(c) else c
  {
  }

  method CheckFlags(flags: byte) returns (r: Option<Received>)
    ensures r == FlagError(flags)
  {
    if !HasFlag(flags, FL_REPLY) {
      return Some(ExpectedReplyFlag);
    }
    if HasFlag(flags, FL_CLOSE) {
      return Some(ServerClosed);
    }
    if HasFlag(flags, FL_OPEN) {
      return Some(UnexpectedOpenFlag);
    }
    return None;
  }

  /** `addFields(fechoReply, false)` */
  method AddReplyFields(p: Packet)
    requires p.Shaped() && p.fb.on == InitSet(p.hmac)
    modifies p.fb
    ensures p.Shaped() && p.fb.on == RequestFields(p.hmac)
    ensures p.fb.blen == old(p.fb.blen) && p.fb.tlen == old(p.fb.tlen)
  {
    CapFacts();
    EchoSelected();
    hide Caps, CapSum, FieldOf, Selected;
    var err := p.fb.AddFields([F_MAGIC, F_FLAGS, F_CONN_TOKEN, F_SEQNO], false);
  }

  lemma EchoSelected()
    ensures Selected([F_MAGIC, F_FLAGS, F_CONN_TOKEN, F_SEQNO], 0, 13) == {F_MAGIC, F_FLAGS, F_CONN_TOKEN, F_SEQNO}
  {
    SelectedIncreasing([F_MAGIC, F_FLAGS, F_CONN_TOKEN, F_SEQNO], 0, 13);
  }

  method ReadStamps(p: Packet, prm: ReplyParams) returns (r: Received)
    requires p.Shaped()
    ensures r == JudgeStamps(p.Head(), prm)
  {
    var at := p.StampedAt();
    if at != prm.at {
      return StampAtMismatch;
    }
    if at != AT_NONE {
      var cl := p.StampClock();
      if cl != prm.clock {
        return ClockMismatch;
      }
    }
    var ts := p.Stamps();
    return Answer(ts);
  }
}
