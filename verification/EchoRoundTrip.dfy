/** When the client reads back what the server put into its reply. */
module EchoRoundTrip {
  import opened EchoReply
  import opened Layout
  import opened Numbers
  import opened Packets
  import opened Times

  lemma Bits(v: nat)
    requires v <= 4
    ensures Has(v, WALL) == Has(v, COUNT) == Has(v, AT_SEND) == (v == 1 || v == 3)
    ensures Has(v, MONOTONIC) == Has(v, WINDOW) == Has(v, AT_RECEIVE) == (v == 2 || v == 3)
    ensures Has(v, AT_MIDPOINT) == (v == 4)
  {
    assert Has(v, 1) == (v % 2 == 1);
    assert Has(v, 2) == (v / 2 % 2 == 1);
    assert Has(v, 4) == (v / 4 % 2 == 1);
  }

  // Layouts

  lemma StatsAgree(on: set<nat>, stats: ReceivedStats)
    ensures OnWithStats(on, stats) == on + StatsFields(stats)
  {
    hide Has;
  }

  /** The fields that `addTimestampFields` adds, one by one. */
  function StampFieldSet(at: StampAt, c: ClockParam): set<nat> {
    var wall, mono := HasWall(c), HasMono(c);
    (if at == AT_RECEIVE || at == AT_BOTH then Pair(wall, F_RWALL, mono, F_RMONO) else {}) +
    (if at == AT_MIDPOINT then Pair(wall, F_MWALL, mono, F_MMONO) else {}) +
    (if at == AT_SEND || at == AT_BOTH then Pair(wall, F_SWALL, mono, F_SMONO) else {})
  }

  function Pair(a: bool, f: nat, b: bool, g: nat): set<nat> { (if a then {f} else {}) + (if b then {g} else {}) }

  lemma StampFieldsAre(at: StampAt, c: ClockParam)
    ensures StampFields(at, c) == StampFieldSet(at, c)
  {
    Bits(at);
    Bits(c);
    hide Has;
    ListPair(at == AT_RECEIVE || at == AT_BOTH, c, F_RWALL, F_RMONO);
    ListPair(at == AT_MIDPOINT, c, F_MWALL, F_MMONO);
    ListPair(at == AT_SEND || at == AT_BOTH, c, F_SWALL, F_SMONO);
    hide ClockFields, Pair;
  }

  lemma ListPair(stamped: bool, c: ClockParam, wf: nat, mf: nat)
    ensures forall f: nat :: f in ClockFields(stamped, c, wf, mf)
                        <==> f in if stamped then Pair(HasWall(c), wf, HasMono(c), mf) else {}
  {
    Bits(c);
    hide Has;
  }

  /** The stamp fields that the server sets: the midpoint always has both clocks. */
  function ServerStampSet(at: StampAt, c: ClockParam): set<nat> {
    if at == AT_MIDPOINT then {F_MWALL, F_MMONO} else StampFieldSet(at, c)
  }

  function ServerFields(hmac: Option<Hash>, prm: ReplyParams): set<nat> {
    RequestFields(hmac) + StatsFields(prm.stats) + ServerStampSet(prm.at, prm.clock)
  }

  /** The clocks that the server reads for a stamp: both when the request arrives, and those asked for when it
      replies. None of them shows zero, nor does the midpoint. */
  predicate Clocked(prm: ReplyParams, trcvd: Time, now: Time) {
    && CanStamp(prm, trcvd, now)
    && (prm.at != AT_NONE ==> BothShow(trcvd) && now.Reads(prm.clock))
    && (prm.at == AT_MIDPOINT ==> BothShow(trcvd.Midpoint(now)))
  }

  /** For given parameters the server can stamp its replies at all times exactly if they are stampable. */
  lemma StampableExactly(prm: ReplyParams)
    ensures Stampable(prm)
       <==> forall trcvd, shown :: BothShow(trcvd) && BothShow(shown) ==> TryStamps(prm, trcvd, shown).Some?
  {
    Bits(prm.at);
    Bits(prm.clock);
    hide Has;
    var t := Time(1, 1);
    assert BothShow(t) && (!Stampable(prm) ==> TryStamps(prm, t, t).None?);
  }

  /** When it can, its stamps are those of `ReplyStamps`. */
  lemma TryStampsAre(prm: ReplyParams, trcvd: Time, shown: Time)
    requires prm.at != AT_NONE && prm.clock != 0 && BothShow(trcvd) && BothShow(shown)
    ensures var now := shown.KeepClocks(prm.clock);
            && now.Reads(prm.clock) && CanStamp(prm, trcvd, now)
            && TryStamps(prm, trcvd, shown) == Some(ReplyStamps(prm, trcvd, now))
  {
    Bits(prm.at);
    Bits(prm.clock);
    hide Has;
  }

  lemma ClockedStamps(prm: ReplyParams, trcvd: Time, now: Time)
    requires Clocked(prm, trcvd, now)
    ensures var ts := ReplyStamps(prm, trcvd, now);
            && (prm.at == AT_RECEIVE || prm.at == AT_BOTH ==> ts.receive == trcvd.KeepClocks(prm.clock))
            && (prm.at == AT_RECEIVE || prm.at == AT_BOTH ==> Shows(ts.receive, prm.clock))
            && (prm.at == AT_SEND || prm.at == AT_BOTH ==> ts.send == now && Shows(ts.send, prm.clock))
            && (prm.at == AT_MIDPOINT ==> ts.receive == ts.send == trcvd.Midpoint(now))
  {
    Bits(prm.at);
    Bits(prm.clock);
    hide Has;
  }

  predicate Shows(t: Time, c: ClockParam) { (t.wall != 0 <==> HasWall(c)) && (t.mono != 0 <==> HasMono(c)) }

  lemma StampsAgree(on: set<nat>, prm: ReplyParams, trcvd: Time, now: Time)
    requires Clocked(prm, trcvd, now) && prm.at != AT_NONE
    ensures OnStamped(on, prm.at, ReplyStamps(prm, trcvd, now)) == on + ServerStampSet(prm.at, prm.clock)
  {
    ClockedStamps(prm, trcvd, now);
    Bits(prm.at);
    hide Has, ReplyStamps;
  }

  lemma ReplyFieldsAre(hmac: Option<Hash>, prm: ReplyParams, trcvd: Time, now: Time)
    requires Clocked(prm, trcvd, now)
    ensures ReplyFields(hmac, prm, trcvd, now) == ServerFields(hmac, prm)
  {
    StatsAgree(RequestFields(hmac), prm.stats);
    if prm.at != AT_NONE {
      StampsAgree(OnWithStats(RequestFields(hmac), prm.stats), prm, trcvd, now);
    }
    hide RequestFields, StatsFields, OnWithStats, OnStamped, Clocked;
  }

  /** Client and server agree on the layout unless the midpoint is sent for a single clock. */
  lemma LayoutsAgreeExactly(hmac: Option<Hash>, prm: ReplyParams, trcvd: Time, now: Time)
    requires Clocked(prm, trcvd, now)
    ensures ReplyFields(hmac, prm, trcvd, now) == ClientFields(hmac, prm)
       <==> prm.at != AT_MIDPOINT || prm.clock == WALL + MONOTONIC
  {
    ReplyFieldsAre(hmac, prm, trcvd, now);
    StampFieldsAre(prm.at, prm.clock);
    OnlyStampsDiffer(hmac, prm);
    hide ReplyFields, ServerFields, ClientFields, StampFields, Clocked;
  }

  lemma OnlyStampsDiffer(hmac: Option<Hash>, prm: ReplyParams)
    ensures ServerFields(hmac, prm) == ClientFields(hmac, prm)
       <==> prm.at != AT_MIDPOINT || prm.clock == WALL + MONOTONIC
  {
    StampFieldsAre(prm.at, prm.clock);
    EarlyFields(hmac, prm.stats);
    hide RequestFields, StatsFields, StampFields;
    if prm.at == AT_MIDPOINT && prm.clock != WALL + MONOTONIC {
      var extra := if prm.clock == WALL then F_MMONO else F_MWALL;
      assert extra in ServerFields(hmac, prm) && extra !in ClientFields(hmac, prm);
    }
  }

  lemma EarlyFields(hmac: Option<Hash>, stats: ReceivedStats)
    ensures forall f :: f in RequestFields(hmac) + StatsFields(stats) ==> f < F_RWALL
    ensures {F_MAGIC, F_FLAGS} <= RequestFields(hmac)
  {
    hide Has;
  }

  // Values

  lemma {:induction false} OffsetAgrees(caps: seq<nat>, a: set<nat>, b: set<nat>, i: nat)
    requires i <= |caps| && forall k :: 0 <= k < i ==> (k in a <==> k in b)
    ensures Offset(caps, a, i) == Offset(caps, b, i)
  {
    if i > 0 {
      OffsetAgrees(caps, a, b, i - 1);
    }
  }

  lemma ValueAgrees(a: set<nat>, b: set<nat>, d: bytes, i: nat)
    requires |d| >= MAX_HEADER_LEN && i < 13 && forall k: nat :: k <= i ==> (k in a <==> k in b)
    ensures |Caps()| == 13 && CapSum(Caps(), 13) <= |d|
    ensures ValueAt(Caps(), a, d, i) == ValueAt(Caps(), b, d, i)
  {
    CapFacts();
    OffsetAgrees(Caps(), a, b, i);
    OffsetAgrees(Caps(), a, b, i + 1);
  }

  lemma ValueAbsent(on: set<nat>, d: bytes, i: nat)
    requires |d| >= MAX_HEADER_LEN && i < 13 && i !in on
    ensures |Caps()| == 13 && CapSum(Caps(), 13) <= |d| && ValueAt(Caps(), on, d, i) == []
  {
    CapFacts();
    ValueSlice(Caps(), on, d, i);
    assert Offset(Caps(), on, i + 1) == Offset(Caps(), on, i);
  }

  /** Without the wall clock, the monotonic clock is read from where the wall clock was written. */
  lemma ShiftedValue(a: set<nat>, b: set<nat>, d: bytes)
    requires |d| >= MAX_HEADER_LEN && forall k: nat :: k < F_MWALL ==> (k in a <==> k in b)
    requires F_MWALL in a && F_MWALL !in b && F_MMONO in b
    ensures |Caps()| == 13 && CapSum(Caps(), 13) <= |d|
    ensures ValueAt(Caps(), b, d, F_MMONO) == ValueAt(Caps(), a, d, F_MWALL)
  {
    CapFacts();
    OffsetAgrees(Caps(), a, b, F_MWALL);
    ValueSlice(Caps(), a, d, F_MWALL);
    ValueSlice(Caps(), b, d, F_MMONO);
    hide Caps, CapSum;
    assert Offset(Caps(), b, F_MMONO) == Offset(Caps(), b, F_MWALL);
    assert Offset(Caps(), b, F_MMONO + 1) == Offset(Caps(), b, F_MMONO) + 8;
    assert Offset(Caps(), a, F_MWALL + 1) == Offset(Caps(), a, F_MWALL) + 8;
  }

  /** The header that the client sees. A client of the monotonic clock reads the midpoint's wall clock. */
  function Seen(h: Header, prm: ReplyParams): Header {
    if prm.at != AT_MIDPOINT || prm.clock == WALL + MONOTONIC then h
    else if prm.clock == WALL then h.(mid := Stamp(h.mid.wall, None))
    else h.(mid := Stamp(None, h.mid.wall))
  }

  lemma SeenValues(hmac: Option<Hash>, prm: ReplyParams, d: bytes)
    requires |d| >= MAX_HEADER_LEN && prm.at == AT_MIDPOINT && prm.clock != WALL + MONOTONIC && Stampable(prm)
    ensures |Caps()| == 13 && CapSum(Caps(), 13) <= |d|
    ensures var vs, vc := Values(Caps(), ServerFields(hmac, prm), d), Values(Caps(), ClientFields(hmac, prm), d);
            && (forall i :: 0 <= i < F_MWALL ==> vc[i] == vs[i])
            && vc[F_MWALL] == (if prm.clock == WALL then vs[F_MWALL] else [])
            && vc[F_MMONO] == (if prm.clock == WALL then [] else vs[F_MWALL])
            && vc[F_SWALL] == vc[F_SMONO] == vs[F_SWALL] == vs[F_SMONO] == []
  {
    CapFacts();
    var s, c := ServerFields(hmac, prm), ClientFields(hmac, prm);
    StampFieldsAre(prm.at, prm.clock);
    EarlyFields(hmac, prm.stats);
    hide RequestFields, StatsFields, StampFields, Caps, CapSum, ValueAt, Offset;
    assert forall k: nat :: k < F_MWALL ==> (k in s <==> k in c);
    forall i: nat | i < F_MWALL ensures ValueAt(Caps(), c, d, i) == ValueAt(Caps(), s, d, i) {
      ValueAgrees(s, c, d, i);
    }
    ValueAbsent(s, d, F_SWALL);
    ValueAbsent(s, d, F_SMONO);
    ValueAbsent(c, d, F_SWALL);
    ValueAbsent(c, d, F_SMONO);
    if prm.clock == WALL {
      ValueAgrees(s, c, d, F_MWALL);
      ValueAbsent(c, d, F_MMONO);
    } else {
      ValueAbsent(c, d, F_MWALL);
      ShiftedValue(s, c, d);
    }
  }

  /** What the client sees of the server's header, once it has the bytes of the server's fields. */
  lemma SeenThrough(hmac: Option<Hash>, prm: ReplyParams, ds: bytes, dc: bytes)
    requires |ds| >= MAX_HEADER_LEN && |dc| >= MAX_HEADER_LEN && Stampable(prm)
    ensures |Caps()| == 13 && CapSum(Caps(), 13) == MAX_HEADER_LEN
    ensures var s := ServerFields(hmac, prm);
            End(Caps(), s) <= MAX_HEADER_LEN &&
            (dc[..End(Caps(), s)] == ds[..End(Caps(), s)] ==>
               Parse(Values(Caps(), ClientFields(hmac, prm), dc)) == Seen(Parse(Values(Caps(), s, ds)), prm))
  {
    CapFacts();
    var s := ServerFields(hmac, prm);
    OffsetWithin(Caps(), s, 13);
    if dc[..End(Caps(), s)] == ds[..End(Caps(), s)] {
      SameFieldBytes(Caps(), s, ds, dc);
      if prm.at == AT_MIDPOINT && prm.clock != WALL + MONOTONIC {
        SeenValues(hmac, prm, dc);
        hide Values, ServerFields, ClientFields, Int64, Uint64, Uint32;
      } else {
        OnlyStampsDiffer(hmac, prm);
      }
    }
  }

  // Stamps

  const NO_STAMP := Stamp(None, None)

  predicate Unstamped(h: Header) { h.receive == h.mid == h.send == NO_STAMP }

  /** The stamps that the client should read: those of the clocks it asked for. */
  ghost predicate RightStamps(prm: ReplyParams, trcvd: Time, now: Time, ts: Timestamp) {
    if prm.at == AT_MIDPOINT then
      exists m :: Halfway(trcvd, now, m) && ts == Timestamp(Only(m, prm.clock), Only(m, prm.clock))
    else ServerStamps(prm, trcvd, now, ts)
  }

  /** The stamps that it does read. Of a midpoint by the monotonic clock alone it reads the wall clock. */
  ghost predicate StampsSeen(prm: ReplyParams, trcvd: Time, now: Time, ts: Timestamp) {
    if prm.at == AT_MIDPOINT && prm.clock == MONOTONIC then
      exists m :: Halfway(trcvd, now, m) && ts == Timestamp(Time(0, m.wall), Time(0, m.wall))
    else RightStamps(prm, trcvd, now, ts)
  }

  /** These stamps, computed. */
  function StampsRead(prm: ReplyParams, trcvd: Time, now: Time): Timestamp
    requires CanStamp(prm, trcvd, now)
  {
    if prm.at != AT_MIDPOINT then ReplyStamps(prm, trcvd, now)
    else
      var m := trcvd.Midpoint(now);
      var seen := if prm.clock == MONOTONIC then Time(0, m.wall) else Only(m, prm.clock);
      Timestamp(seen, seen)
  }

  lemma StampsReadExactly(prm: ReplyParams, trcvd: Time, now: Time, ts: Timestamp)
    requires CanStamp(prm, trcvd, now)
    ensures StampsSeen(prm, trcvd, now, ts) <==> ts == StampsRead(prm, trcvd, now)
  {
    hide Halfway, Time.Midpoint, ReplyStamps, ServerStamps;
    if prm.at == AT_MIDPOINT {
      forall m ensures Halfway(trcvd, now, m) <==> m == trcvd.Midpoint(now) {
        MidpointExactly(trcvd, now, m);
      }
    } else {
      ReplyStampsExactly(prm, trcvd, now, ts);
    }
  }

  /** Whether the stamps come through, as a client can tell before it asks. */
  predicate StampsCarried(prm: ReplyParams) { prm.at != AT_MIDPOINT || prm.clock != MONOTONIC }

  /** For given parameters the stamps are right at all times exactly if they are carried. */
  lemma StampsRightExactly(prm: ReplyParams)
    ensures StampsCarried(prm)
       <==> forall trcvd, now, ts :: Clocked(prm, trcvd, now) && StampsSeen(prm, trcvd, now, ts) ==>
              RightStamps(prm, trcvd, now, ts)
  {
    if !StampsCarried(prm) {
      WrongStamps(prm);
      hide *;
    }
  }

  /** An echo whose arrival and reply fall on the same reading of the monotonic clock. */
  lemma WrongStamps(prm: ReplyParams)
    requires !StampsCarried(prm)
    ensures var trcvd, now, ts := Time(1000, 10), Time(0, 10), Timestamp(Time(0, 1000), Time(0, 1000));
            Clocked(prm, trcvd, now) && StampsSeen(prm, trcvd, now, ts) && !RightStamps(prm, trcvd, now, ts)
  {
    hide Time.Midpoint, Has, Halfway;
    var trcvd, now := Time(1000, 10), Time(0, 10);
    MidpointOfSame(trcvd, now);
    Bits(prm.clock);
    forall m ensures Halfway(trcvd, now, m) <==> m == trcvd {
      MidpointExactly(trcvd, now, m);
    }
  }

  lemma MidpointOfSame(t: Time, u: Time)
    requires t.mono == u.mono != 0
    ensures t.Midpoint(u) == t
  {
    WrapOf(0);
    WrapOf(t.wall);
    WrapOf(t.mono);
    hide Wrap;
    assert u.Sub(t) == 0;
  }

  lemma WrapOf(x: i64)
    ensures Wrap(x) == x
  {
  }

  function StampedReply(h: Header, prm: ReplyParams, trcvd: Time, now: Time): Header
    requires CanStamp(prm, trcvd, now)
  {
    if prm.at == AT_NONE then h else Stamped(h, prm.at, ReplyStamps(prm, trcvd, now))
  }

  /** The client always gets an answer, with the stamps of `StampsRead`. */
  lemma StampsSurvive(h: Header, prm: ReplyParams, trcvd: Time, now: Time)
    requires Clocked(prm, trcvd, now) && Unstamped(h)
    ensures JudgeStamps(Seen(StampedReply(h, prm, trcvd, now), prm), prm) == Answer(StampsRead(prm, trcvd, now))
  {
    ClockedStamps(prm, trcvd, now);
    Bits(prm.at);
    Bits(prm.clock);
    hide Has;
  }

  // Exchange

  /** A buffer that starts as the checked packet does. Its header is the packet's, without the digest. */
  lemma CheckedImage(p: Packet) returns (d: bytes)
    requires p.Valid() && (p.hmac.Some? ==> F_HMAC in p.fb.on)
    ensures |d| == p.fb.data.Length >= MAX_HEADER_LEN && p.fb.Flen() <= p.fb.blen <= |d|
    ensures p.hmac.Some? ==> MAC_END <= p.fb.blen
    ensures d[..p.fb.blen] == Checked(p.hmac, p.fb.Contents())
    ensures |Caps()| == 13 && CapSum(Caps(), 13) == MAX_HEADER_LEN
    ensures Parse(Values(Caps(), p.fb.on, d)) == p.Head().(mac := if p.hmac.Some? then Zeros(16) else p.Head().mac)
  {
    CapFacts();
    d := p.fb.data[..];
    if p.hmac.Some? {
      p.HMACBytes();
      p.RoomMeans(F_HMAC);
      hide Caps, CapSum, FieldOf, Written, Blanked, Parse, Values, Offset, End;
      WriteValue(Caps(), p.fb.on, d, F_HMAC, Zeros(16));
      ParseStart(p.fb.Vals(), [], 0, Zeros(16));
      BlankedPrefix(d, p.fb.blen);
      WrittenPieces(d, MAC_START, Zeros(16));
      d := Written(d, MAC_START, Zeros(16));
    }
  }

  /** A finished reply passes the client's early checks. */
  lemma FinishedIsRead(p: Packet, length: int)
    requires p.Valid() && p.Head().magic == Magic() && p.Head().flags <= FL_ALL && length <= p.fb.blen
    requires FlagError(p.Head().flags).None?
    requires p.hmac.Some? ==> F_HMAC in p.fb.on && HasFlag(p.Head().flags, FL_HMAC)
    requires p.hmac.Some? ==> Authentic(p.hmac.value, p.fb.Contents())
    requires p.hmac.None? ==> !HasFlag(p.Head().flags, FL_HMAC)
    ensures EarlyError(p.hmac, p.fb.Contents(), length).None?
  {
    hide *;
    p.StartBytes();
    p.ValidMeans();
    if p.hmac.Some? {
      p.HMACBytes();
    }
    NoEarlyError(p.hmac, p.fb.Contents(), length);
  }

  lemma NoEarlyError(hmac: Option<Hash>, c: bytes, length: int)
    requires |c| >= MAC_START && (hmac.Some? ==> |c| >= MAC_END) && |c| >= length
    requires c[..3] == Magic() && c[3] <= FL_ALL && FlagError(c[3]).None?
    requires HasFlag(c[3], FL_HMAC) == hmac.Some? && (hmac.Some? ==> Authentic(hmac.value, c))
    ensures EarlyError(hmac, c, length).None?
  {
    hide Authentic, FlagError, HasFlag, Magic;
  }

  /** The flags of a reply to a request. */
  lemma ReplyFlags(flags: byte, hmac: Option<Hash>)
    requires RequestFlags(flags, hmac)
    ensures var f := SetFlag(flags, FL_REPLY);
            var g := if hmac.Some? then SetFlag(f, FL_HMAC) else f;
            g <= FL_ALL && FlagError(g).None? && HasFlag(g, FL_HMAC) == hmac.Some?
  {
    var f := SetFlag(flags, FL_REPLY);
    FlagBits(flags, FL_REPLY, FL_REPLY);
    FlagBits(flags, FL_REPLY, FL_OPEN);
    FlagBits(flags, FL_REPLY, FL_CLOSE);
    FlagBits(flags, FL_REPLY, FL_HMAC);
    FlagBits(f, FL_HMAC, FL_REPLY);
    FlagBits(f, FL_HMAC, FL_OPEN);
    FlagBits(f, FL_HMAC, FL_CLOSE);
    FlagBits(f, FL_HMAC, FL_HMAC);
    hide HasFlag, SetFlag;
  }

  /** The flags with which an echo request reaches the server. */
  predicate RequestFlags(flags: byte, hmac: Option<Hash>) {
    flags <= FL_ALL && !HasFlag(flags, FL_OPEN) && !HasFlag(flags, FL_CLOSE) && (HasFlag(flags, FL_HMAC) ==> hmac.Some?)
  }

  /** The same but for the flags and the digest. */
  predicate SameReply(g: Header, h: Header) { g == h.(flags := g.flags, mac := g.mac) }

  lemma ReplySame(g: Header, h: Header)
    ensures g == h.(flags := g.flags, mac := g.mac) <==> SameReply(g, h)
  {
  }

  /** The length of the client's requests, if the buffers have room for it: they reserve the fields of the reply. */
  function BoundOf(hmac: Option<Hash>, prm: ReplyParams): int {
    var flen := End(Caps(), ClientFields(hmac, prm));
    if prm.length <= flen then flen else prm.length
  }

  lemma {:induction false} OffsetOfSubset(caps: seq<nat>, a: set<nat>, b: set<nat>, i: nat)
    requires a <= b && i <= |caps|
    ensures Offset(caps, a, i) <= Offset(caps, b, i)
  {
    if i > 0 {
      OffsetOfSubset(caps, a, b, i - 1);
    }
  }

  lemma ClientWithinServer(hmac: Option<Hash>, prm: ReplyParams)
    ensures ClientFields(hmac, prm) <= ServerFields(hmac, prm)
  {
    StampFieldsAre(prm.at, prm.clock);
    hide RequestFields, StatsFields, StampFields;
  }

  /** A reply is never shorter than the request. */
  lemma LongEnough(hmac: Option<Hash>, prm: ReplyParams, cap: nat)
    requires prm.length <= cap
    ensures PaddedLength(prm.length, End(Caps(), ServerFields(hmac, prm)), cap) >= BoundOf(hmac, prm)
  {
    ClientWithinServer(hmac, prm);
    OffsetOfSubset(Caps(), ClientFields(hmac, prm), ServerFields(hmac, prm), |Caps()|);
    hide ClientFields, ServerFields, Caps, Offset;
  }

  lemma TimeApart(h: Header, flags: byte, t: Time, wf: nat, mf: nat)
    ensures WithTime(h.(flags := flags), t, wf, mf) == WithTime(h, t, wf, mf).(flags := flags)
    ensures WithTime(h, t, wf, mf).magic == h.magic
  {
    WithStampApart(h, flags, wf, t.wall);
    var g := if t.wall != 0 then WithStamp(h, wf, t.wall) else h;
    WithStampApart(g, flags, mf, t.mono);
    hide WithStamp;
  }

  lemma WithStampApart(h: Header, flags: byte, f: nat, v: i64)
    ensures WithStamp(h.(flags := flags), f, v) == WithStamp(h, f, v).(flags := flags)
    ensures WithStamp(h, f, v).magic == h.magic
  {
  }

  lemma StampedApart(h: Header, flags: byte, at: StampAt, ts: Timestamp)
    ensures Stamped(h.(flags := flags), at, ts) == Stamped(h, at, ts).(flags := flags)
    ensures Stamped(h, at, ts).magic == h.magic
  {
    hide WithTime, Has;
    TimeApart(h, flags, ts.receive, F_MWALL, F_MMONO);
    TimeApart(h, flags, ts.receive, F_RWALL, F_RMONO);
    var g := if Has(at, AT_RECEIVE) then WithTime(h, ts.receive, F_RWALL, F_RMONO) else h;
    TimeApart(g, flags, ts.send, F_SWALL, F_SMONO);
  }

  /** Setting the reply flag does not interfere with the other fields. */
  lemma ReplyHeadIs(h: Header, prm: ReplyParams, c: Counters, trcvd: Time, now: Time)
    requires CanStamp(prm, trcvd, now)
    ensures ReplyHead(h, false, prm, c, trcvd, now)
         == StampedReply(WithStats(h, prm.stats, c), prm, trcvd, now).(flags := SetFlag(h.flags, FL_REPLY))
    ensures ReplyHead(h, false, prm, c, trcvd, now).magic == h.magic
  {
    hide Has, ReplyStamps, SetFlag, Stamped;
    StampedApart(WithStats(h, prm.stats, c), SetFlag(h.flags, FL_REPLY), prm.at, ReplyStamps(prm, trcvd, now));
  }

  lemma HMACField(hmac: Option<Hash>, prm: ReplyParams)
    ensures F_HMAC in ServerFields(hmac, prm) <==> hmac.Some?
  {
    hide Has;
    assert F_HMAC !in StatsFieldList(prm.stats);
    assert F_HMAC !in ServerStampSet(prm.at, prm.clock);
  }

  /** The server's side. */
  method SendReply(p: Packet, prm: ReplyParams, bound: int, c: Counters, trcvd: Time, now: Time)
    requires p.Valid() && p.fb.on == RequestFields(p.hmac) && Clocked(prm, trcvd, now)
    requires p.Head().magic == Magic() && RequestFlags(p.Head().flags, p.hmac)
    requires prm.length <= p.fb.data.Length && bound <= BoundOf(p.hmac, prm)
    modifies p.fb, p.fb.data
    ensures p.Valid() && p.fb.on == ServerFields(p.hmac, prm) && (p.hmac.Some? ==> F_HMAC in p.fb.on)
    ensures p.fb.blen == PaddedLength(prm.length, p.fb.Flen(), p.fb.data.Length)
    ensures EarlyError(p.hmac, p.fb.Contents(), bound).None?
    ensures SameReply(p.Head(), StampedReply(WithStats(old(p.Head()), prm.stats, c), prm, trcvd, now))
  {
    ghost var h := p.Head();
    ReplyFlags(h.flags, p.hmac);
    ReplyFieldsAre(p.hmac, prm, trcvd, now);
    HMACField(p.hmac, prm);
    ReplyHeadIs(h, prm, c, trcvd, now);
    hide *;
    FillReply(p, false, prm, c, trcvd, now);
    Finish(p, prm.length);
    p.ValidMeans();
    LongEnough(p.hmac, prm, p.fb.data.Length);
    FinishedIsRead(p, bound);
    ReplySame(p.Head(), StampedReply(WithStats(h, prm.stats, c), prm, trcvd, now));
  }

  lemma PrefixShort(a: bytes, b: bytes, n: nat, m: nat)
    requires m <= n <= |a| && n <= |b| && a[..n] == b[..n]
    ensures a[..m] == b[..m]
  {
    assert a[..m] == a[..n][..m];
  }

  lemma ShortEnough(length: int, flen: nat, cap: nat)
    ensures PaddedLength(length, flen, cap) <= if length <= flen then flen else length
  {
  }

  lemma RoomInBuffer(p: Packet)
    requires p.fb.Valid() && p.fb.caps == Caps()
    ensures p.fb.data.Length >= MAX_HEADER_LEN >= p.fb.Flen()
  {
    CapFacts();
    OffsetWithin(Caps(), p.fb.on, 13);
  }

  /** The same but for the stamps. */
  predicate SameRest(g: Header, h: Header) { g == h.(receive := g.receive, mid := g.mid, send := g.send) }

  lemma TimeKeepsRest(h: Header, t: Time, wf: nat, mf: nat)
    ensures SameRest(WithTime(h, t, wf, mf), h)
  {
    StampKeepsRest(h, wf, t.wall);
    StampKeepsRest(if t.wall != 0 then WithStamp(h, wf, t.wall) else h, mf, t.mono);
    hide WithStamp;
  }

  lemma StampKeepsRest(h: Header, f: nat, v: i64)
    ensures SameRest(WithStamp(h, f, v), h)
  {
  }

  lemma StampedKeepsRest(h: Header, prm: ReplyParams, trcvd: Time, now: Time)
    requires CanStamp(prm, trcvd, now)
    ensures SameRest(StampedReply(h, prm, trcvd, now), h)
  {
    hide Has, ReplyStamps, WithTime;
    var ts := ReplyStamps(prm, trcvd, now);
    TimeKeepsRest(h, ts.receive, F_MWALL, F_MMONO);
    TimeKeepsRest(h, ts.receive, F_RWALL, F_RMONO);
    TimeKeepsRest(if Has(prm.at, AT_RECEIVE) then WithTime(h, ts.receive, F_RWALL, F_RMONO) else h,
                  ts.send, F_SWALL, F_SMONO);
  }

  /** Only the stamps matter to `JudgeStamps`. */
  lemma JudgeSame(g: Header, h: Header, prm: ReplyParams)
    requires SameReply(g, h)
    ensures JudgeStamps(Seen(g, prm), prm) == JudgeStamps(Seen(h, prm), prm)
  {
  }

  lemma ClockedMeans(prm: ReplyParams, trcvd: Time, now: Time)
    requires Clocked(prm, trcvd, now)
    ensures CanStamp(prm, trcvd, now) && Stampable(prm)
  {
  }

  /** What the client sees of any reply like the one to a request with header `h`. */
  lemma CarriedThrough(h: Header, prm: ReplyParams, c: Counters, trcvd: Time, now: Time)
    requires Clocked(prm, trcvd, now) && Unstamped(h) && h.count.None? && h.window.None?
    ensures forall g :: SameReply(g, StampedReply(WithStats(h, prm.stats, c), prm, trcvd, now)) ==>
              Carried(h, Seen(g, prm), prm, c, trcvd, now)
  {
    var k := WithStats(h, prm.stats, c);
    StampsSurvive(k, prm, trcvd, now);
    StampedKeepsRest(k, prm, trcvd, now);
    hide Has, StampedReply, JudgeStamps, StampsRead, Clocked;
    forall g | SameReply(g, StampedReply(k, prm, trcvd, now)) ensures Carried(h, Seen(g, prm), prm, c, trcvd, now) {
      JudgeSame(g, StampedReply(k, prm, trcvd, now), prm);
    }
  }

  /** `seen` tells the client what the server knew. */
  predicate Carried(h: Header, seen: Header, prm: ReplyParams, c: Counters, trcvd: Time, now: Time)
    requires CanStamp(prm, trcvd, now)
  {
    && seen.token == h.token && seen.seqno == h.seqno
    && seen.count == (if Has(prm.stats, COUNT) then Some(c.count) else None)
    && seen.window == (if Has(prm.stats, WINDOW) then Some(c.window) else None)
    && JudgeStamps(seen, prm) == Answer(StampsRead(prm, trcvd, now))
  }

  /** One echo: the client reads back the token, the seqno and the counters, and the stamps if they are carried. */
  method Exchange(server: Packet, client: Packet, prm: ReplyParams, bound: int, c: Counters, trcvd: Time, now: Time)
    returns (r: Received)
    requires server.Valid() && server.fb.on == RequestFields(server.hmac) && Clocked(prm, trcvd, now)
    requires server.Head().magic == Magic() && RequestFlags(server.Head().flags, server.hmac)
    requires Unstamped(server.Head()) && server.Head().count.None? && server.Head().window.None?
    requires client.fb.Valid() && client.fb.caps == Caps() && client.hmac == server.hmac
    requires client.fb != server.fb && client.fb.data != server.fb.data
    requires prm.length <= server.fb.data.Length && prm.length <= client.fb.data.Length
    requires bound <= BoundOf(server.hmac, prm)
    modifies server.fb, server.fb.data, client.fb, client.fb.data
    ensures client.Shaped() && r == JudgeStamps(client.Head(), prm) && client.fb.on == ClientFields(client.hmac, prm)
    ensures client.fb.blen >= bound
    ensures Carried(old(server.Head()), client.Head(), prm, c, trcvd, now)
    ensures r.Answer? && StampsSeen(prm, trcvd, now, r.stamps)
  {
    hide *;
    ClockedMeans(prm, trcvd, now);
    StampsReadExactly(prm, trcvd, now, StampsRead(prm, trcvd, now));
    server.ValidMeans();
    ghost var h := server.Head();
    CarriedThrough(h, prm, c, trcvd, now);
    RoomInBuffer(client);
    SendReply(server, prm, bound, c, trcvd, now);
    server.ValidMeans();
    ReplySame(server.Head(), StampedReply(WithStats(h, prm.stats, c), prm, trcvd, now));
    ghost var d := CheckedImage(server);
    var wire := server.fb.data[..][..server.fb.blen];
    ShortEnough(prm.length, server.fb.Flen(), server.fb.data.Length);
    RoomInBuffer(server);
    r := ReceiveReply(client, wire, prm, bound);
    client.ShapedMeans();
    ghost var dc := client.fb.data[..];
    SeenThrough(server.hmac, prm, d, dc);
    PrefixShort(d, dc, |wire|, server.fb.Flen());
    ghost var g := Parse(Values(Caps(), server.fb.on, d));
    ReplySame(g, StampedReply(WithStats(h, prm.stats, c), prm, trcvd, now));
    CarriedAnswers(h, client.Head(), prm, c, trcvd, now);
  }

  lemma CarriedAnswers(h: Header, seen: Header, prm: ReplyParams, c: Counters, trcvd: Time, now: Time)
    requires CanStamp(prm, trcvd, now) && Carried(h, seen, prm, c, trcvd, now)
    ensures JudgeStamps(seen, prm) == Answer(StampsRead(prm, trcvd, now))
  {
  }
}
