/** The echo request, and a whole echo: request, reply and what the client reads. */
module EchoRequest {
  import opened EchoReply
  import opened EchoRoundTrip
  import opened Fbufs
  import opened Layout
  import opened Numbers
  import opened Packets
  import opened Times

  /** The fields that every request has are set just as `RequestFields` says, whatever else is. */
  ghost predicate LikeRequest(hmac: Option<Hash>, on: set<nat>) {
    forall f: nat :: f < F_RCOUNT ==> (f in on <==> f in RequestFields(hmac))
  }

  /** The part of a header that the server reads of a request. */
  function Requested(h: Header): Header {
    h.(count := None, window := None, receive := NO_STAMP, mid := NO_STAMP, send := NO_STAMP)
  }

  /** What the server sees of the client's header, whatever fields the client keeps room for. */
  lemma RequestSeen(hmac: Option<Hash>, on: set<nat>, dc: bytes, ds: bytes)
    requires |dc| >= MAX_HEADER_LEN && |ds| >= MAX_HEADER_LEN && LikeRequest(hmac, on)
    ensures |Caps()| == 13 && CapSum(Caps(), 13) == MAX_HEADER_LEN
    ensures var s := RequestFields(hmac);
            End(Caps(), s) <= MAX_HEADER_LEN &&
            (ds[..End(Caps(), s)] == dc[..End(Caps(), s)] ==>
               Parse(Values(Caps(), s, ds)) == Requested(Parse(Values(Caps(), on, dc))))
  {
    CapFacts();
    var s := RequestFields(hmac);
    OffsetWithin(Caps(), s, 13);
    if ds[..End(Caps(), s)] == dc[..End(Caps(), s)] {
      SameFieldBytes(Caps(), s, ds, dc);
      RequestValues(hmac, on, dc);
      hide *;
      ParseRequested(Values(Caps(), s, dc), Values(Caps(), on, dc));
    }
  }

  lemma RequestValues(hmac: Option<Hash>, on: set<nat>, d: bytes)
    requires |d| >= MAX_HEADER_LEN && LikeRequest(hmac, on)
    ensures |Caps()| == 13 && CapSum(Caps(), 13) <= |d|
    ensures var vs, vc := Values(Caps(), RequestFields(hmac), d), Values(Caps(), on, d);
            (forall i :: 0 <= i < F_RCOUNT ==> vs[i] == vc[i]) && (forall i :: F_RCOUNT <= i < 13 ==> vs[i] == [])
  {
    CapFacts();
    var s := RequestFields(hmac);
    assert forall f :: f in s ==> f < F_RCOUNT;
    hide RequestFields, Caps, CapSum, ValueAt, Offset;
    forall i: nat | i < F_RCOUNT ensures ValueAt(Caps(), s, d, i) == ValueAt(Caps(), on, d, i) {
      ValueAgrees(s, on, d, i);
    }
    forall i: nat | F_RCOUNT <= i < 13 ensures ValueAt(Caps(), s, d, i) == [] {
      ValueAbsent(s, d, i);
    }
  }

  lemma ParseRequested(vs: seq<bytes>, vc: seq<bytes>)
    requires |vs| == |vc| == 13
    requires (forall i :: 0 <= i < F_RCOUNT ==> vs[i] == vc[i]) && (forall i :: F_RCOUNT <= i < 13 ==> vs[i] == [])
    ensures Parse(vs) == Requested(Parse(vc))
  {
    hide Uint64, Uint32, Int64;
  }

  // Client

  lemma ParseZeroed(vs: seq<bytes>, f: nat, b: bytes)
    requires |vs| == 13 && F_RCOUNT <= f < 13
    ensures Requested(Parse(vs[f := b])) == Requested(Parse(vs))
  {
    hide Uint64, Uint32, Int64;
  }

  /** `zero(f)`, for a field that the server leaves alone. */
  method ZeroField(p: Packet, f: nat)
    requires p.Valid() && p.Tight() && F_RCOUNT <= f < 13
    modifies p.fb`fields, p.fb`on, p.fb`blen, p.fb.data
    ensures p.Valid() && p.Tight() && p.fb.on == old(p.fb.on) + {f}
    ensures Requested(p.Head()) == Requested(old(p.Head()))
  {
    hide Parse, Requested, Values, Offset, FieldOf, CapSum, Caps;
    CapFacts();
    p.TightRoom(f);
    p.ShapedMeans();
    ParseZeroed(p.fb.Vals(), f, Zeros(Caps()[f]));
    p.fb.Set(f, Zeros(Caps()[f]));
    p.ShapedMeans();
  }

  /** Only fields before `f` are set. */
  ghost predicate Below(on: set<nat>, f: nat) { forall g :: g in on ==> g < f }

  /** `zero(f)` if wanted, and `remove(f)` otherwise, of a field that is not set. */
  method Reserve(p: Packet, f: nat, wanted: bool)
    requires p.Valid() && p.Tight() && F_RCOUNT <= f < 13 && Below(p.fb.on, f)
    modifies p.fb`fields, p.fb`on, p.fb`blen, p.fb.data
    ensures p.Valid() && p.Tight() && Below(p.fb.on, f + 1)
    ensures Requested(p.Head()) == Requested(old(p.Head()))
    ensures p.fb.on == if wanted then old(p.fb.on) + {f} else old(p.fb.on)
  {
    hide Parse, Requested, Values, Offset, FieldOf, CapSum, Caps;
    if wanted {
      ZeroField(p, f);
    } else {
      CapFacts();
      p.fb.Remove(f);
      assert p.fb.on == old(p.fb.on);
    }
  }

  /** Reserves `f` and the field after it. */
  method ReservePair(p: Packet, a: bool, f: nat, b: bool)
    requires p.Valid() && p.Tight() && F_RCOUNT <= f < F_SMONO && Below(p.fb.on, f)
    modifies p.fb`fields, p.fb`on, p.fb`blen, p.fb.data
    ensures p.Valid() && p.Tight() && Below(p.fb.on, f + 2)
    ensures Requested(p.Head()) == Requested(old(p.Head()))
    ensures p.fb.on == old(p.fb.on) + Pair(a, f, b, f + 1)
  {
    hide Parse, Requested, Values, Offset, FieldOf, CapSum, Caps;
    Reserve(p, f, a);
    Reserve(p, f + 1, b);
  }

  /** The fields of one stamp, if it is wanted. */
  function StampPair(at: StampAt, stamp: nat, c: ClockParam, f: nat): set<nat>
    requires stamp > 0
  {
    Pair(Has(at, stamp) && Has(c, WALL), f, Has(at, stamp) && Has(c, MONOTONIC), f + 1)
  }

  /** `zts` of `stampZeroes` */
  method ReserveStamp(p: Packet, prm: ReplyParams, stamp: nat, f: nat)
    requires stamp > 0
    requires p.Valid() && p.Tight() && F_RCOUNT <= f < F_SMONO && Below(p.fb.on, f)
    modifies p.fb`fields, p.fb`on, p.fb`blen, p.fb.data
    ensures p.Valid() && p.Tight() && Below(p.fb.on, f + 2)
    ensures Requested(p.Head()) == Requested(old(p.Head()))
    ensures p.fb.on == old(p.fb.on) + StampPair(prm.at, stamp, prm.clock, f)
  {
    hide Parse, Requested, Values, Offset, FieldOf, CapSum, Caps, Has;
    ReservePair(p, Has(prm.at, stamp) && Has(prm.clock, WALL), f, Has(prm.at, stamp) && Has(prm.clock, MONOTONIC));
  }

  /** `zeroReceivedStats` and `stampZeroes`: room for what the reply will hold. */
  method ReserveFields(p: Packet, prm: ReplyParams)
    requires p.Valid() && p.Tight() && p.fb.on == RequestFields(p.hmac)
    modifies p.fb`fields, p.fb`on, p.fb`blen, p.fb.data
    ensures p.Valid() && p.Tight() && p.fb.on == ClientFields(p.hmac, prm)
    ensures Requested(p.Head()) == Requested(old(p.Head()))
  {
    ghost var before := p.fb.on;
    RequestBelow(p.hmac);
    hide RequestFields, ClientFields, Pair, StampPair, Requested, Has, Below;
    hide Parse, Values, Offset, FieldOf, CapSum, Caps, End;
    ReservePair(p, Has(prm.stats, COUNT), F_RCOUNT, Has(prm.stats, WINDOW));
    ReserveStamp(p, prm, AT_RECEIVE, F_RWALL);
    ReserveStamp(p, prm, AT_MIDPOINT, F_MWALL);
    ReserveStamp(p, prm, AT_SEND, F_SWALL);
    ReservedAre(p.hmac, prm);
  }

  lemma RequestBelow(hmac: Option<Hash>)
    ensures Below(RequestFields(hmac), F_RCOUNT)
  {
  }

  /** The reserved fields are those that the client expects in the reply. */
  lemma ReservedAre(hmac: Option<Hash>, prm: ReplyParams)
    ensures RequestFields(hmac)
          + Pair(Has(prm.stats, COUNT), F_RCOUNT, Has(prm.stats, WINDOW), F_RCOUNT + 1)
          + StampPair(prm.at, AT_RECEIVE, prm.clock, F_RWALL)
          + StampPair(prm.at, AT_MIDPOINT, prm.clock, F_MWALL)
          + StampPair(prm.at, AT_SEND, prm.clock, F_SWALL)
         == ClientFields(hmac, prm)
  {
    hide *;
    StatsPair(prm.stats);
    StampPairs(prm.at, prm.clock);
    ClientFieldsAre(hmac, prm);
  }

  lemma ClientFieldsAre(hmac: Option<Hash>, prm: ReplyParams)
    ensures ClientFields(hmac, prm) == RequestFields(hmac) + StatsFields(prm.stats) + StampFields(prm.at, prm.clock)
  {
  }

  lemma StatsPair(stats: ReceivedStats)
    ensures Pair(Has(stats, COUNT), F_RCOUNT, Has(stats, WINDOW), F_RCOUNT + 1) == StatsFields(stats)
  {
    hide Has;
  }

  lemma StampPairs(at: StampAt, c: ClockParam)
    ensures StampPair(at, AT_RECEIVE, c, F_RWALL) + StampPair(at, AT_MIDPOINT, c, F_MWALL)
          + StampPair(at, AT_SEND, c, F_SWALL) == StampFields(at, c)
  {
    StampFieldsAre(at, c);
    Bits(at);
    Bits(c);
    hide Has, StampFields;
  }

  /** `addFields(fechoRequest, true)` on a packet that has a token. */
  method AddRequestFields(p: Packet, token: u64)
    requires p.Valid() && p.fb.on == InitSet(p.hmac) + {F_CONN_TOKEN}
    requires p.Head().token == Some(token) && p.Head().magic == Magic() && p.Head().flags == 0
    modifies p.fb
    ensures p.Valid() && p.Tight() && p.fb.on == RequestFields(p.hmac)
    ensures p.Head().token == Some(token) && p.Head().magic == Magic() && p.Head().flags == 0
  {
    hide *;
    EchoSelectedCaps();
    p.ValidMeans();
    p.ShapedMeans();
    RoomInBuffer(p);
    SeqnoAdded(p.hmac, p.fb.data[..]);
    var err := p.fb.AddFields([F_MAGIC, F_FLAGS, F_CONN_TOKEN, F_SEQNO], true);
    NowTight(p);
    p.ShapedMeans();
  }

  lemma EchoSelectedCaps()
    ensures |Caps()| == 13
    ensures Selected([F_MAGIC, F_FLAGS, F_CONN_TOKEN, F_SEQNO], 0, |Caps()|)
         == {F_MAGIC, F_FLAGS, F_CONN_TOKEN, F_SEQNO}
  {
    CapFacts();
    EchoSelected();
  }

  lemma NowTight(p: Packet)
    requires p.fb.Valid() && p.fb.caps == Caps() && p.fb.tlen == p.fb.blen == p.fb.Flen()
    requires p.fb.on == {F_MAGIC, F_FLAGS, F_CONN_TOKEN, F_SEQNO} + (InitSet(p.hmac) + {F_CONN_TOKEN})
    ensures p.Valid() && p.Tight() && p.fb.on == RequestFields(p.hmac)
  {
    hide Caps, CapSum, FieldOf;
    assert p.fb.on == RequestFields(p.hmac);
  }

  /** Adding a field keeps those before it. */
  lemma SeqnoAdded(hmac: Option<Hash>, d: bytes)
    requires |d| >= MAX_HEADER_LEN
    ensures |Caps()| == 13 && CapSum(Caps(), 13) <= |d|
    ensures var was := Parse(Values(Caps(), InitSet(hmac) + {F_CONN_TOKEN}, d));
            var now := Parse(Values(Caps(), RequestFields(hmac), d));
            now.magic == was.magic && now.flags == was.flags && now.token == was.token
  {
    var was, on := InitSet(hmac) + {F_CONN_TOKEN}, RequestFields(hmac);
    assert forall k: nat :: k < F_SEQNO ==> (k in was <==> k in on);
    hide InitSet, RequestFields, Caps, CapSum, ValueAt, Uint64;
    ValueAgrees(was, on, d, F_MAGIC);
    ValueAgrees(was, on, d, F_FLAGS);
    ValueAgrees(was, on, d, F_CONN_TOKEN);
  }

  lemma RequestedMeans(g: Header, h: Header)
    requires Requested(g) == Requested(h)
    ensures g.magic == h.magic && g.flags == h.flags && g.mac == h.mac && g.token == h.token && g.seqno == h.seqno
  {
  }

  /** Fills in the fields of a new packet. */
  method FillRequest(p: Packet, token: u64, seqno: u32, prm: ReplyParams)
    requires p.Valid() && p.Tight() && p.fb.on == InitSet(p.hmac)
    requires p.Head().magic == Magic() && p.Head().flags == 0
    modifies p.fb, p.fb.data
    ensures p.Valid() && p.fb.on == ClientFields(p.hmac, prm)
    ensures p.Head().magic == Magic() && p.Head().flags == 0
    ensures p.Head().token == Some(token) && p.Head().seqno == Some(seqno)
  {
    hide Parse, Values, Offset, FieldOf, CapSum, Caps, End, Requested, Magic;
    p.TightRoom(F_CONN_TOKEN);
    p.SetConnToken(token);
    AddRequestFields(p, token);
    ghost var h := p.Head();
    ReserveFields(p, prm);
    RequestedMeans(h, p.Head());
    p.TightRoom(F_SEQNO);
    p.SetSeqno(seqno);
    SeqnoExpected(p.hmac, prm);
    assert p.fb.on == ClientFields(p.hmac, prm);
  }

  lemma SeqnoExpected(hmac: Option<Hash>, prm: ReplyParams)
    ensures F_SEQNO in ClientFields(hmac, prm)
  {
    hide StatsFields, StampFields;
  }

  lemma NewFlags(hmac: Option<Hash>)
    ensures SetFlag(0, FL_HMAC) == FL_HMAC && RequestFlags(if hmac.Some? then FL_HMAC else 0, hmac)
  {
  }

  lemma ClientLikeRequest(hmac: Option<Hash>, prm: ReplyParams)
    ensures LikeRequest(hmac, ClientFields(hmac, prm))
  {
    StampFieldsAre(prm.at, prm.clock);
    hide Has, RequestFields, StampFields;
  }

  lemma LikeHMAC(hmac: Option<Hash>, on: set<nat>)
    requires LikeRequest(hmac, on)
    ensures F_HMAC in on <==> hmac.Some?
  {
    assert F_HMAC in RequestFields(hmac) <==> hmac.Some?;
  }

  lemma TightMeans(p: Packet)
    requires p.Valid() && p.fb.tlen == p.fb.blen == p.fb.Flen()
    ensures p.Tight()
  {
  }

  /** The client's packet, ready to be sent. */
  method NewRequest(cap: nat, hmac: Option<Hash>, token: u64, seqno: u32, prm: ReplyParams) returns (p: Packet)
    ensures fresh(p) && fresh(p.fb) && fresh(p.fb.data) && p.hmac == hmac
    ensures p.fb.data.Length == if cap < MAX_HEADER_LEN then MAX_HEADER_LEN else cap
    ensures p.Valid() && p.fb.on == ClientFields(hmac, prm) && LikeRequest(hmac, p.fb.on)
    ensures hmac.Some? ==> F_HMAC in p.fb.on
    ensures p.fb.blen == PaddedLength(prm.length, p.fb.Flen(), p.fb.data.Length)
    ensures p.Head().magic == Magic() && p.Head().token == Some(token) && p.Head().seqno == Some(seqno)
    ensures p.Head().flags == if hmac.Some? then FL_HMAC else 0
    ensures hmac.Some? ==> Authentic(hmac.value, p.fb.Contents())
  {
    p := new Packet(0, cap, hmac);
    hide *;
    TightMeans(p);
    FillRequest(p, token, seqno, prm);
    ClientLikeRequest(hmac, prm);
    LikeHMAC(hmac, p.fb.on);
    NewFlags(hmac);
    Finish(p, prm.length);
  }

  // Server

  datatype RequestError =
    | ReadFailure(error: PacketError)
    | UnexpectedReplyFlag
    | OpenRequest
    | FieldsMissing
    | InvalidConnToken
    | AddressMismatch
    | CloseRequest

  /** A UDP address, with the IP in its 16-byte form. */
  datatype Address = Address(ip: bytes, port: nat, zone: string)

  /** The server's connections: the client's address for each token. */
  type Conns = map<u64, Address>

  /** How long a request must be to have a token, and a seqno too. */
  function TokenEnd(hmac: Option<Hash>): nat { if hmac.Some? then 28 else 12 }

  function SeqnoEnd(hmac: Option<Hash>): nat { TokenEnd(hmac) + 4 }

  function TokenOf(hmac: Option<Hash>, c: bytes): u64
    requires |c| >= TokenEnd(hmac)
  {
    Uint64(c[TokenEnd(hmac) - 8..TokenEnd(hmac)])
  }

  /** What a server with these connections makes of a packet from an address. */
  function RequestErrorOf(hmac: Option<Hash>, conns: Conns, from: Address, c: bytes): Option<RequestError> {
    var e := ReadError(hmac, c);
    if e.Some? then Some(ReadFailure(e.value))
    else if HasFlag(c[3], FL_REPLY) then Some(UnexpectedReplyFlag)
    else if HasFlag(c[3], FL_OPEN) then Some(OpenRequest)
    else if |c| < TokenEnd(hmac) then Some(FieldsMissing)
    else if TokenOf(hmac, c) !in conns then Some(InvalidConnToken)
    else if conns[TokenOf(hmac, c)] != from then Some(AddressMismatch)
    else if HasFlag(c[3], FL_CLOSE) then Some(CloseRequest)
    else if |c| < SeqnoEnd(hmac) then Some(FieldsMissing)
    else None
  }

  lemma {:induction false} NoMore(on: set<nat>, n: nat, i: nat)
    requires n <= i <= |Caps()| && forall f :: f in on ==> f < n
    ensures Offset(Caps(), on, i) == Offset(Caps(), on, n)
  {
    if i > n {
      NoMore(on, n, i - 1);
    }
  }

  lemma RequestEnds(hmac: Option<Hash>)
    ensures |Caps()| == 13
    ensures End(Caps(), InitSet(hmac) + {F_CONN_TOKEN}) == TokenEnd(hmac)
    ensures End(Caps(), RequestFields(hmac)) == Offset(Caps(), RequestFields(hmac), 5) == SeqnoEnd(hmac)
  {
    CapFacts();
    var t, s := InitSet(hmac) + {F_CONN_TOKEN}, RequestFields(hmac);
    StartOffsets(t);
    StartOffsets(s);
    assert Offset(Caps(), t, 4) == Offset(Caps(), t, 3) + 8;
    assert Offset(Caps(), s, 4) == Offset(Caps(), s, 3) + 8;
    assert Offset(Caps(), s, 5) == Offset(Caps(), s, 4) + 4;
    NoMore(t, 4, 13);
    NoMore(s, 5, 13);
  }

  /** `addFields(fRequest, false)` */
  method AddToken(p: Packet) returns (ok: bool)
    requires p.Valid() && p.fb.on == InitSet(p.hmac)
    modifies p.fb
    ensures p.Shaped() && p.fb.on == InitSet(p.hmac) + {F_CONN_TOKEN} && p.fb.blen == old(p.fb.blen)
    ensures ok == p.fb.Fits() == (p.fb.blen >= TokenEnd(p.hmac))
  {
    hide Caps, CapSum, FieldOf, Offset, End, TokenEnd, Selected;
    CapFacts();
    RequestEnds(p.hmac);
    TokenSelected();
    var err := p.fb.AddFields([F_MAGIC, F_FLAGS, F_CONN_TOKEN], false);
    assert p.fb.on == InitSet(p.hmac) + {F_CONN_TOKEN};
    ok := err.None?;
  }

  lemma TokenSelected()
    ensures Selected([F_MAGIC, F_FLAGS, F_CONN_TOKEN], 0, 13) == {F_MAGIC, F_FLAGS, F_CONN_TOKEN}
  {
    SelectedIncreasing([F_MAGIC, F_FLAGS, F_CONN_TOKEN], 0, 13);
  }

  /** `addFields(fechoRequest, false)` */
  method AddSeqno(p: Packet) returns (ok: bool)
    requires p.Valid() && p.fb.on == InitSet(p.hmac) + {F_CONN_TOKEN}
    modifies p.fb
    ensures p.Shaped() && p.fb.on == RequestFields(p.hmac) && p.fb.blen == old(p.fb.blen)
    ensures ok == p.fb.Fits() == (p.fb.blen >= SeqnoEnd(p.hmac))
  {
    CapFacts();
    RequestEnds(p.hmac);
    EchoSelected();
    hide Caps, CapSum, FieldOf, Offset, End, SeqnoEnd, Selected;
    var err := p.fb.AddFields([F_MAGIC, F_FLAGS, F_CONN_TOKEN, F_SEQNO], false);
    assert p.fb.on == RequestFields(p.hmac);
    ok := err.None?;
  }

  /** Where the token is, whatever follows it. */
  lemma TokenBytes(p: Packet)
    requires p.Valid() && F_CONN_TOKEN in p.fb.on && (F_HMAC in p.fb.on <==> p.hmac.Some?)
    ensures |p.fb.Vals()| == 13 && TokenEnd(p.hmac) <= p.fb.blen
    ensures p.fb.Vals()[F_CONN_TOKEN] == p.fb.data[..][TokenEnd(p.hmac) - 8..TokenEnd(p.hmac)]
  {
    CapFacts();
    StartOffsets(p.fb.on);
    assert Offset(Caps(), p.fb.on, 4) == Offset(Caps(), p.fb.on, 3) + 8;
    OffsetMonotone(p.fb.caps, p.fb.on, 4, 13);
    ValueSlice(p.fb.caps, p.fb.on, p.fb.data[..], F_CONN_TOKEN);
  }

  /** Checking the digest leaves the token alone. */
  lemma TokenOfChecked(hmac: Option<Hash>, c: bytes, d: bytes)
    requires TokenEnd(hmac) <= |c| <= |d| && d[..|c|] == Checked(hmac, c)
    ensures d[TokenEnd(hmac) - 8..TokenEnd(hmac)] == c[TokenEnd(hmac) - 8..TokenEnd(hmac)]
  {
    var start, end := TokenEnd(hmac) - 8, TokenEnd(hmac);
    assert d[start..end] == d[..|c|][start..end];
    if hmac.Some? {
      WrittenPieces(c, MAC_START, Zeros(16));
    }
  }

  lemma TokenChecked(p: Packet, c: bytes)
    requires p.Valid() && p.fb.on == InitSet(p.hmac) + {F_CONN_TOKEN} && p.fb.blen == |c|
    requires (p.hmac.Some? ==> |c| >= MAC_END) && p.fb.data[..][..|c|] == Checked(p.hmac, c)
    ensures |c| >= TokenEnd(p.hmac) && Uint64(p.fb.Vals()[F_CONN_TOKEN]) == TokenOf(p.hmac, c)
  {
    p.ValidMeans();
    TokenBytes(p);
    TokenOfChecked(p.hmac, c, p.fb.data[..]);
  }

  /** `wire` is what was read from the network: as much of a packet as fits the buffer. */
  method ReadRequest(p: Packet, conns: Conns, from: Address, wire: bytes) returns (err: Option<RequestError>)
    requires p.fb.Valid() && p.fb.caps == Caps() && |wire| <= p.fb.data.Length
    modifies p.fb, p.fb.data
    ensures err == RequestErrorOf(p.hmac, conns, from, wire)
    ensures err.None? ==>
              && p.Valid() && p.fb.on == RequestFields(p.hmac)
              && ReadError(p.hmac, wire).None? && p.fb.data[..][..|wire|] == Checked(p.hmac, wire)
  {
    hide Caps, CapSum, FieldOf, ReadError, Parse, Values, Checked, TokenEnd, SeqnoEnd, RequestFields, InitSet, HasFlag;
    var perr := ReadPacket(p, wire);
    if perr.Some? {
      return Some(ReadFailure(perr.value));
    }
    var flags := p.Flags();
    if HasFlag(flags, FL_REPLY) {
      return Some(UnexpectedReplyFlag);
    }
    if HasFlag(flags, FL_OPEN) {
      return Some(OpenRequest);
    }
    var ok := AddToken(p);
    if !ok {
      return Some(FieldsMissing);
    }
    CapFacts();
    TokenChecked(p, wire);
    var token := Uint64(p.fb.Get(F_CONN_TOKEN));
    if token !in conns {
      return Some(InvalidConnToken);
    }
    if conns[token] != from {
      return Some(AddressMismatch);
    }
    if HasFlag(flags, FL_CLOSE) {
      return Some(CloseRequest);
    }
    ok := AddSeqno(p);
    if !ok {
      return Some(FieldsMissing);
    }
    return None;
  }

  // Echo

  /** A client's request is accepted for what it is. */
  lemma RequestIsRead(p: Packet, conns: Conns, from: Address)
    requires p.Valid() && LikeRequest(p.hmac, p.fb.on)
    requires p.Head().magic == Magic() && p.Head().flags == if p.hmac.Some? then FL_HMAC else 0
    requires p.hmac.Some? ==> F_HMAC in p.fb.on && Authentic(p.hmac.value, p.fb.Contents())
    requires p.Head().token.Some? && p.Head().token.value in conns && conns[p.Head().token.value] == from
    ensures RequestErrorOf(p.hmac, conns, from, p.fb.Contents()).None?
    ensures SeqnoEnd(p.hmac) <= p.fb.Flen()
  {
    hide *;
    TokenSent(p);
    p.ValidMeans();
    p.ShapedMeans();
    p.StartBytes();
    RequestIsLong(p.hmac, p.fb.on);
    NoRequestError(p.hmac, conns, from, p.fb.Contents());
  }

  lemma RequestIsLong(hmac: Option<Hash>, on: set<nat>)
    requires LikeRequest(hmac, on)
    ensures |Caps()| == 13 && SeqnoEnd(hmac) <= End(Caps(), on)
  {
    RequestEnds(hmac);
    OffsetAgrees(Caps(), on, RequestFields(hmac), 5);
    OffsetMonotone(Caps(), on, 5, 13);
  }

  /** The token in a request's bytes is the one in its header. */
  lemma TokenSent(p: Packet)
    requires p.Valid() && LikeRequest(p.hmac, p.fb.on) && p.Head().token.Some?
    ensures TokenEnd(p.hmac) <= p.fb.blen && TokenOf(p.hmac, p.fb.Contents()) == p.Head().token.value
  {
    hide *;
    p.ValidMeans();
    p.ShapedMeans();
    LikeHMAC(p.hmac, p.fb.on);
    LikeToken(p.hmac, p.fb.on);
    TokenBytes(p);
    TokenOfPrefix(p.hmac, p.fb.data[..], p.fb.blen);
    ParsedToken(p.fb.Vals());
  }

  lemma LikeToken(hmac: Option<Hash>, on: set<nat>)
    requires LikeRequest(hmac, on)
    ensures F_CONN_TOKEN in on
  {
    assert F_CONN_TOKEN in RequestFields(hmac);
  }

  lemma TokenOfPrefix(hmac: Option<Hash>, d: bytes, n: nat)
    requires TokenEnd(hmac) <= n <= |d|
    ensures TokenOf(hmac, d[..n]) == Uint64(d[TokenEnd(hmac) - 8..TokenEnd(hmac)])
  {
    var start, end := TokenEnd(hmac) - 8, TokenEnd(hmac);
    assert d[..n][start..end] == d[start..end];
  }

  lemma ParsedToken(vs: seq<bytes>)
    requires |vs| == 13 && Parse(vs).token.Some?
    ensures Parse(vs).token.value == Uint64(vs[F_CONN_TOKEN])
  {
  }

  lemma NoRequestError(hmac: Option<Hash>, conns: Conns, from: Address, c: bytes)
    requires |c| >= SeqnoEnd(hmac) && c[..3] == Magic() && c[3] == if hmac.Some? then FL_HMAC else 0
    requires hmac.Some? ==> Authentic(hmac.value, c)
    requires TokenOf(hmac, c) in conns && conns[TokenOf(hmac, c)] == from
    ensures RequestErrorOf(hmac, conns, from, c).None?
  {
    hide Authentic, Magic;
  }

  /** What the server reads of a request. */
  lemma ReadsRequest(h: Header, g: Header, token: u64, seqno: u32, hmac: Option<Hash>, mac: bytes)
    requires h.magic == Magic() && h.token == Some(token) && h.seqno == Some(seqno)
    requires h.flags == if hmac.Some? then FL_HMAC else 0
    requires g == Requested(h.(mac := mac))
    ensures g.magic == Magic() && RequestFlags(g.flags, hmac) && Unstamped(g) && g.count.None? && g.window.None?
    ensures g.token == Some(token) && g.seqno == Some(seqno)
  {
    NewFlags(hmac);
    hide RequestFlags, Magic;
  }

  /** The server reads the client's request. */
  method Request(request: Packet, server: Packet, conns: Conns, from: Address, token: u64, seqno: u32)
    requires token in conns && conns[token] == from
    requires request.Valid() && LikeRequest(request.hmac, request.fb.on) && server.hmac == request.hmac
    requires request.Head().magic == Magic()
    requires request.Head().flags == if request.hmac.Some? then FL_HMAC else 0
    requires request.Head().token == Some(token) && request.Head().seqno == Some(seqno)
    requires request.hmac.Some? ==> F_HMAC in request.fb.on && Authentic(request.hmac.value, request.fb.Contents())
    requires server.fb.Valid() && server.fb.caps == Caps() && request.fb.blen <= server.fb.data.Length
    requires server.fb != request.fb && server.fb.data != request.fb.data
    modifies server.fb, server.fb.data
    ensures server.Valid() && server.fb.on == RequestFields(server.hmac)
    ensures server.Head().magic == Magic() && RequestFlags(server.Head().flags, server.hmac)
    ensures Unstamped(server.Head()) && server.Head().count.None? && server.Head().window.None?
    ensures server.Head().token == Some(token) && server.Head().seqno == Some(seqno)
  {
    hide *;
    request.ValidMeans();
    RequestIsRead(request, conns, from);
    ghost var d := CheckedImage(request);
    ghost var h := request.Head();
    var wire := request.fb.data[..][..request.fb.blen];
    var err := ReadRequest(server, conns, from, wire);
    server.ValidMeans();
    server.ShapedMeans();
    RequestSeen(server.hmac, request.fb.on, d, server.fb.data[..]);
    RequestEnds(server.hmac);
    PrefixShort(server.fb.data[..], d, |wire|, SeqnoEnd(server.hmac));
    ReadsRequest(h, server.Head(), token, seqno, server.hmac, if server.hmac.Some? then Zeros(16) else h.mac);
  }

  /** The length of a request that has room in its buffer. */
  lemma RequestBound(p: Packet, prm: ReplyParams, cap: nat)
    requires p.Valid() && p.fb.on == ClientFields(p.hmac, prm) && prm.length <= p.fb.data.Length
    requires p.fb.blen == PaddedLength(prm.length, p.fb.Flen(), p.fb.data.Length)
    ensures p.fb.blen == BoundOf(p.hmac, prm)
  {
    hide ClientFields, Caps, CapSum, FieldOf;
  }

  /** A reply as long as the request has all the fields that the client reads. */
  lemma ReadsWithin(p: Packet, prm: ReplyParams)
    requires p.Shaped() && p.fb.on == ClientFields(p.hmac, prm) && p.fb.blen >= BoundOf(p.hmac, prm)
    ensures p.Valid()
  {
    hide ClientFields, Caps, CapSum, FieldOf;
  }

  /** A whole echo. Whatever the client asks for, it reads back its token, its seqno and the server's counters.
      The stamps that it reads are those of `StampsSeen`: the right ones, if its parameters let them through. */
  method Echo(server: Packet, client: Packet, conns: Conns, from: Address, token: u64, seqno: u32,
              prm: ReplyParams, c: Counters, trcvd: Time, now: Time)
    returns (r: Received)
    requires token in conns && conns[token] == from
    requires server.fb.Valid() && server.fb.caps == Caps() && client.fb.Valid() && client.fb.caps == Caps()
    requires client.hmac == server.hmac && client.fb != server.fb && client.fb.data != server.fb.data
    requires prm.length <= server.fb.data.Length && prm.length <= client.fb.data.Length
    requires Clocked(prm, trcvd, now)
    modifies server.fb, server.fb.data, client.fb, client.fb.data
    ensures client.Valid() && client.fb.on == ClientFields(client.hmac, prm)
    ensures r == JudgeStamps(client.Head(), prm) && CanStamp(prm, trcvd, now)
    ensures client.Head().token == Some(token) && client.Head().seqno == Some(seqno)
    ensures client.Head().count == if Has(prm.stats, COUNT) then Some(c.count) else None
    ensures client.Head().window == if Has(prm.stats, WINDOW) then Some(c.window) else None
    ensures r.Answer? && StampsSeen(prm, trcvd, now, r.stamps)
    ensures StampsCarried(prm) ==> RightStamps(prm, trcvd, now, r.stamps)
  {
    hide *;
    var cap := if prm.length < 0 then 0 else prm.length;
    var request := NewRequest(cap, server.hmac, token, seqno, prm);
    request.ValidMeans();
    RoomInBuffer(request);
    RoomInBuffer(server);
    ShortEnough(prm.length, request.fb.Flen(), request.fb.data.Length);
    Request(request, server, conns, from, token, seqno);
    server.ValidMeans();
    ghost var h := server.Head();
    RequestBound(request, prm, cap);
    r := Exchange(server, client, prm, request.fb.blen, c, trcvd, now);
    ReadsWithin(client, prm);
    client.ShapedMeans();
    ClockedMeans(prm, trcvd, now);
    CarriedMeans(h, client.Head(), prm, c, trcvd, now);
    if StampsCarried(prm) {
      RightIfCarried(prm, trcvd, now, r.stamps);
    }
  }

  lemma CarriedMeans(h: Header, seen: Header, prm: ReplyParams, c: Counters, trcvd: Time, now: Time)
    requires CanStamp(prm, trcvd, now) && Carried(h, seen, prm, c, trcvd, now)
    ensures seen.token == h.token && seen.seqno == h.seqno
    ensures seen.count == if Has(prm.stats, COUNT) then Some(c.count) else None
    ensures seen.window == if Has(prm.stats, WINDOW) then Some(c.window) else None
    ensures JudgeStamps(seen, prm) == Answer(StampsRead(prm, trcvd, now))
  {
    hide JudgeStamps, Has;
  }

  lemma RightIfCarried(prm: ReplyParams, trcvd: Time, now: Time, ts: Timestamp)
    requires StampsSeen(prm, trcvd, now, ts) && StampsCarried(prm)
    ensures RightStamps(prm, trcvd, now, ts)
  {
  }
}
