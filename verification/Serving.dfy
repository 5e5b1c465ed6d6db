/** What the negotiated parameters mean for the echoes that follow: stamps that make the server panic, and requests
    that it refuses for their length. */
module Serving {
  import opened Config
  import opened EchoReply
  import opened EchoRequest
  import opened EchoRoundTrip
  import opened Layout
  import opened Negotiation
  import opened Numbers
  import opened Packets
  import opened ParamsCodec
  import opened ParamsRoundTrip
  import opened Times

  /** The part of a connection's parameters that shapes its echoes. */
  function ReplyParamsOf(p: Params): ReplyParams
    requires FormatInRange(p) && 0 <= p.clock <= 3
  {
    ReplyParams(p.receivedStats, p.stampAt, p.clock, p.length)
  }

  lemma GrantedInRange(cfg: ServerConfig, p: Params)
    requires ValidClient(p)
    ensures var q := Granted(cfg, ClippedParams(p));
            && FormatInRange(q) && 0 <= q.clock <= 3 && q.clock == p.clock && q.receivedStats == p.receivedStats
            && q.stampAt == cfg.allowStamp.Restrict(p.stampAt) && q.length == AtMost(p.length, cfg.maxLength)
  {
    hide FillAllowed, RestrictedInterval;
  }

  /** The parameters of the echoes between a server and a client that asks for `p`. */
  ghost function Terms(cfg: ServerConfig, p: Params): ReplyParams
    requires ValidClient(p)
  {
    GrantedInRange(cfg, p);
    ReplyParamsOf(Granted(cfg, ClippedParams(p)))
  }

  /** No interval meets such a short timeout. */
  predicate TooShortTimeout(cfg: ServerConfig) { 0 < cfg.timeout < 4 }

  /** A valid client whose only wishes are counters and stamps. */
  function Modest(cfg: ServerConfig, stats: ReceivedStats, at: StampAt, clock: ClockParam): Params {
    var interval := if cfg.timeout > 0 then MaxInterval(cfg) else if cfg.minInterval > 0 then cfg.minInterval else 1;
    ZERO_PARAMS.(duration := 1, interval := interval, receivedStats := stats, stampAt := at, clock := clock)
  }

  /** Every server agrees with it, if it allows such stamps at all. */
  lemma ModestAgrees(cfg: ServerConfig, loose: bool, stats: ReceivedStats, at: StampAt, clock: ClockParam)
    requires !TooShortTimeout(cfg)
    requires at == AT_NONE || cfg.allowStamp != NoStamp
    requires at == AT_BOTH ==> cfg.allowStamp == DualStamps
    ensures var p := Modest(cfg, stats, at, clock);
            && ValidClient(p) && Agrees(cfg, loose, p) && Terms(cfg, p) == ReplyParams(stats, at, clock, 0)
  {
    var p := Modest(cfg, stats, at, clock);
    assert ValidClient(p);
    assert p.serverFill == [];
    GrantedInRange(cfg, p);
    hide Agrees, Granted;
    StrictAgreesExactly(cfg, p);
    LooseAgreesExactly(cfg, p);
    BuildsExactly(cfg, p);
    NotEmptyItself(p.serverFill);
  }

  /** No server agrees with anyone if its timeout is too short. */
  lemma NoneAgree(cfg: ServerConfig, loose: bool, p: Params)
    requires TooShortTimeout(cfg) && ValidClient(p)
    ensures !Agrees(cfg, loose, p)
  {
    hide Agrees, Builds;
    StrictAgreesExactly(cfg, p);
    LooseAgreesExactly(cfg, p);
  }

  // Panics

  /** A client that left out its clock. */
  function Clockless(cfg: ServerConfig): Params { Modest(cfg, 0, AT_RECEIVE, 0) }

  /** The server agrees with it, and then panics on its first request. */
  lemma ClocklessPanics(cfg: ServerConfig, loose: bool)
    requires !TooShortTimeout(cfg) && cfg.allowStamp != NoStamp
    ensures var p := Clockless(cfg);
            && ValidClient(p) && Agrees(cfg, loose, p)
            && forall trcvd, shown :: TryStamps(Terms(cfg, p), trcvd, shown).None?
  {
    ModestAgrees(cfg, loose, 0, AT_RECEIVE, 0);
    Bits(AT_RECEIVE);
    hide Has, Terms, Modest, Agrees, ValidClient;
  }

  /** A server can stamp its replies to every client that it agrees with exactly if it allows no stamps, or agrees
      with none. */
  lemma NeverPanicsExactly(cfg: ServerConfig, loose: bool)
    ensures (forall p :: ValidClient(p) && Agrees(cfg, loose, p) ==> Stampable(Terms(cfg, p)))
       <==> cfg.allowStamp == NoStamp || TooShortTimeout(cfg)
  {
    hide Agrees, ValidClient, Modest;
    forall p | ValidClient(p) && Agrees(cfg, loose, p)
      ensures cfg.allowStamp == NoStamp || TooShortTimeout(cfg) ==> Stampable(Terms(cfg, p))
    {
      GrantedInRange(cfg, p);
      if TooShortTimeout(cfg) {
        NoneAgree(cfg, loose, p);
      }
    }
    if cfg.allowStamp != NoStamp && !TooShortTimeout(cfg) {
      ModestAgrees(cfg, loose, 0, AT_RECEIVE, 0);
      assert !Stampable(Terms(cfg, Clockless(cfg)));
    }
  }

  // Large requests

  function StampCount(at: StampAt): nat { if at == AT_NONE then 0 else if at == AT_BOTH then 2 else 1 }

  function ClockCount(c: ClockParam): nat { if c == 0 then 0 else if c == 3 then 2 else 1 }

  /** The length of the fields in a client's requests. */
  function HeaderLength(hmac: Option<Hash>, prm: ReplyParams): nat {
    SeqnoEnd(hmac) + (if Has(prm.stats, COUNT) then 4 else 0) + (if Has(prm.stats, WINDOW) then 8 else 0)
    + 8 * StampCount(prm.at) * ClockCount(prm.clock)
  }

  function Took(on: set<nat>, f: nat): nat { if f in on then Cap(f) else 0 }

  function Cap(f: nat): nat { if f == 0 then 3 else if f == 1 then 1 else if f == 2 then 16
                              else if f == 4 || f == 5 then 4 else 8 }

  lemma OffsetStep(on: set<nat>, f: nat)
    requires f < 13
    ensures |Caps()| == 13 && Offset(Caps(), on, f + 1) == Offset(Caps(), on, f) + Took(on, f)
  {
    CapFacts();
    hide Caps;
  }

  lemma EndIsSum(on: set<nat>)
    ensures End(Caps(), on) == Took(on, 0) + Took(on, 1) + Took(on, 2) + Took(on, 3) + Took(on, 4) + Took(on, 5)
                               + Took(on, 6) + Took(on, 7) + Took(on, 8) + Took(on, 9) + Took(on, 10)
                               + Took(on, 11) + Took(on, 12)
  {
    CapFacts();
    assert Offset(Caps(), on, 0) == 0;
    hide Offset, Took, Caps;
    OffsetStep(on, 0);
    OffsetStep(on, 1);
    OffsetStep(on, 2);
    OffsetStep(on, 3);
    OffsetStep(on, 4);
    OffsetStep(on, 5);
    OffsetStep(on, 6);
    OffsetStep(on, 7);
    OffsetStep(on, 8);
    OffsetStep(on, 9);
    OffsetStep(on, 10);
    OffsetStep(on, 11);
    OffsetStep(on, 12);
  }

  lemma StatsFieldsAre(stats: ReceivedStats)
    ensures StatsFields(stats) == (if Has(stats, COUNT) then {F_RCOUNT} else {})
                                  + (if Has(stats, WINDOW) then {F_RWINDOW} else {})
  {
    StatsAgree({}, stats);
    hide Has, StatsFields;
  }

  /** The fields that a client expects, one by one. */
  lemma ExpectedFieldsAre(hmac: Option<Hash>, prm: ReplyParams)
    ensures ClientFields(hmac, prm) == RequestFields(hmac)
              + (if Has(prm.stats, COUNT) then {F_RCOUNT} else {})
              + (if Has(prm.stats, WINDOW) then {F_RWINDOW} else {})
              + StampFieldSet(prm.at, prm.clock)
  {
    StatsFieldsAre(prm.stats);
    StampFieldsAre(prm.at, prm.clock);
    hide Has, StatsFields, StampFields, StampFieldSet, RequestFields;
  }

  lemma StampBytes(on: set<nat>, at: StampAt, c: ClockParam)
    requires forall f :: F_RWALL <= f < 13 ==> (f in on <==> f in StampFieldSet(at, c))
    ensures Took(on, 7) + Took(on, 8) + Took(on, 9) + Took(on, 10) + Took(on, 11) + Took(on, 12)
            == 8 * StampCount(at) * ClockCount(c)
  {
  }

  lemma EarlyBytes(on: set<nat>, hmac: Option<Hash>, stats: ReceivedStats)
    requires forall f :: 0 <= f < 5 ==> (f in on <==> f in RequestFields(hmac))
    requires F_RCOUNT in on <==> Has(stats, COUNT)
    requires F_RWINDOW in on <==> Has(stats, WINDOW)
    ensures Took(on, 0) + Took(on, 1) + Took(on, 2) + Took(on, 3) + Took(on, 4) == SeqnoEnd(hmac)
    ensures Took(on, 5) == if Has(stats, COUNT) then 4 else 0
    ensures Took(on, 6) == if Has(stats, WINDOW) then 8 else 0
  {
    hide Has;
  }

  lemma StampRange(at: StampAt, c: ClockParam)
    ensures forall f: nat :: f in StampFieldSet(at, c) ==> F_RWALL <= f < 13
  {
  }

  lemma ClientHas(hmac: Option<Hash>, prm: ReplyParams)
    ensures var on := ClientFields(hmac, prm);
            && (forall f :: 0 <= f < 5 ==> (f in on <==> f in RequestFields(hmac)))
            && (F_RCOUNT in on <==> Has(prm.stats, COUNT)) && (F_RWINDOW in on <==> Has(prm.stats, WINDOW))
            && (forall f :: F_RWALL <= f < 13 ==> (f in on <==> f in StampFieldSet(prm.at, prm.clock)))
  {
    hide ClientFields, Has, StampFieldSet;
    ExpectedFieldsAre(hmac, prm);
    StampRange(prm.at, prm.clock);
  }

  lemma HeaderLengthIs(hmac: Option<Hash>, prm: ReplyParams)
    ensures End(Caps(), ClientFields(hmac, prm)) == HeaderLength(hmac, prm)
  {
    hide Caps, End, Has, StampCount, ClockCount, ClientFields, StampFieldSet, RequestFields, Took, SeqnoEnd;
    var on := ClientFields(hmac, prm);
    ClientHas(hmac, prm);
    EndIsSum(on);
    EarlyBytes(on, hmac, prm.stats);
    StampBytes(on, prm.at, prm.clock);
  }

  /** The requests of a client that asked for `p` get through exactly if their fields fit the server's limit. */
  lemma PassesExactly(cfg: ServerConfig, hmac: Option<Hash>, p: Params)
    requires ValidClient(p)
    ensures !TooLarge(cfg, BoundOf(hmac, Terms(cfg, p)))
       <==> cfg.maxLength <= 0 || HeaderLength(hmac, Terms(cfg, p)) <= cfg.maxLength
  {
    GrantedInRange(cfg, p);
    HeaderLengthIs(hmac, Terms(cfg, p));
    hide ClientFields, Caps, End, HeaderLength, Granted, ValidClient, ClippedParams;
  }

  /** The longest fields that a client can be granted: the counters and every stamp, with both clocks. */
  function LongestHeader(hmac: Option<Hash>, allow: AllowStamp): nat {
    SeqnoEnd(hmac) + 12 + match allow case NoStamp => 0 case SingleStamp => 16 case DualStamps => 32
  }

  lemma LongestIsLongest(cfg: ServerConfig, hmac: Option<Hash>, p: Params)
    requires ValidClient(p)
    ensures HeaderLength(hmac, Terms(cfg, p)) <= LongestHeader(hmac, cfg.allowStamp)
  {
    GrantedInRange(cfg, p);
    hide Granted, ClippedParams, Has;
  }

  /** A client that is granted the longest fields. */
  function Greedy(cfg: ServerConfig): Params { Modest(cfg, 3, MostStamps(cfg.allowStamp), 3) }

  function MostStamps(allow: AllowStamp): StampAt {
    match allow case NoStamp => AT_NONE case SingleStamp => AT_RECEIVE case DualStamps => AT_BOTH
  }

  lemma LongestReached(hmac: Option<Hash>, allow: AllowStamp)
    ensures HeaderLength(hmac, ReplyParams(3, MostStamps(allow), 3, 0)) == LongestHeader(hmac, allow)
  {
  }

  lemma GreedyIsLongest(cfg: ServerConfig, loose: bool, hmac: Option<Hash>)
    requires !TooShortTimeout(cfg)
    ensures var p := Greedy(cfg);
            && ValidClient(p) && Agrees(cfg, loose, p)
            && HeaderLength(hmac, Terms(cfg, p)) == LongestHeader(hmac, cfg.allowStamp)
  {
    hide Terms, Modest, Agrees, ValidClient, HeaderLength, LongestHeader;
    ModestAgrees(cfg, loose, 3, MostStamps(cfg.allowStamp), 3);
    LongestReached(hmac, cfg.allowStamp);
  }

  /** A server takes the requests of every client that it agrees with exactly if its limit leaves room for the longest
      fields. */
  lemma TakesAllExactly(cfg: ServerConfig, loose: bool, hmac: Option<Hash>)
    ensures (forall p :: ValidClient(p) && Agrees(cfg, loose, p) ==> !TooLarge(cfg, BoundOf(hmac, Terms(cfg, p))))
       <==> cfg.maxLength <= 0 || LongestHeader(hmac, cfg.allowStamp) <= cfg.maxLength || TooShortTimeout(cfg)
  {
    hide Agrees, ValidClient, Terms, HeaderLength, LongestHeader, BoundOf, TooLarge, TooShortTimeout;
    forall p | ValidClient(p) && Agrees(cfg, loose, p)
      ensures !TooLarge(cfg, BoundOf(hmac, Terms(cfg, p)))
         <==> cfg.maxLength <= 0 || HeaderLength(hmac, Terms(cfg, p)) <= cfg.maxLength
      ensures HeaderLength(hmac, Terms(cfg, p)) <= LongestHeader(hmac, cfg.allowStamp) && !TooShortTimeout(cfg)
    {
      PassesExactly(cfg, hmac, p);
      LongestIsLongest(cfg, hmac, p);
      if TooShortTimeout(cfg) {
        NoneAgree(cfg, loose, p);
      }
    }
    if !TooShortTimeout(cfg) {
      GreedyIsLongest(cfg, loose, hmac);
    }
  }
}
