/** How the server restricts a client's parameters, and what the client makes of that. */
module Negotiation {
  import opened Config
  import opened Fills
  import opened Glob
  import opened Numbers
  import opened ParamsCodec
  import opened ParamsRoundTrip
  import opened Times

  const PROTOCOL_VERSION := 1
  const MIN_RESTRICTED_INTERVAL := SECOND
  /** `pattern:69727474` */
  const DEFAULT_FILL: bytes := [112, 97, 116, 116, 101, 114, 110, 58, 54, 57, 55, 50, 55, 52, 55, 52]

  // Server

  function AtMost(x: i64, limit: i64): i64 { if limit > 0 && x > limit then limit else x }

  function AtLeast(x: i64, limit: i64): i64 { if limit > 0 && x < limit then limit else x }

  /** The longest interval: a quarter of the timeout. */
  function MaxInterval(cfg: ServerConfig): i64
    requires cfg.timeout > 0
  {
    cfg.timeout / 4
  }

  function RestrictedInterval(cfg: ServerConfig, interval: i64): i64 {
    var raised := AtLeast(interval, cfg.minInterval);
    if cfg.timeout > 0 && raised > MaxInterval(cfg) then MaxInterval(cfg) else raised
  }

  ghost predicate FillAllowed(cfg: ServerConfig, fill: bytes) {
    fill == [] || exists pattern :: pattern in cfg.allowFills && Matches(pattern, fill)
  }

  ghost function Restricted(cfg: ServerConfig, p: Params): Params {
    p.(protocolVersion := PROTOCOL_VERSION,
       duration := AtMost(p.duration, cfg.maxDuration),
       interval := RestrictedInterval(cfg, p.interval),
       length := AtMost(p.length, cfg.maxLength),
       stampAt := cfg.allowStamp.Restrict(p.stampAt),
       dscp := if cfg.allowDSCP && cfg.dscpSupport then p.dscp else 0,
       serverFill := if FillAllowed(cfg, p.serverFill) then p.serverFill else DEFAULT_FILL)
  }

  method RestrictParams(cfg: ServerConfig, p: Params) returns (q: Params)
    ensures q == Restricted(cfg, p)
  {
    hide FillAllowed, RestrictedInterval, AtMost;
    q := RestrictTiming(cfg, p);
    q := RestrictFormat(cfg, q);
    var fill := RestrictFill(cfg, q.serverFill);
    q := q.(serverFill := fill);
  }

  method RestrictTiming(cfg: ServerConfig, p: Params) returns (q: Params)
    ensures q == p.(protocolVersion := PROTOCOL_VERSION, duration := AtMost(p.duration, cfg.maxDuration),
                    interval := RestrictedInterval(cfg, p.interval))
  {
    q := p;
    if q.protocolVersion != PROTOCOL_VERSION {
      q := q.(protocolVersion := PROTOCOL_VERSION);
    }
    if cfg.maxDuration > 0 && q.duration > cfg.maxDuration {
      q := q.(duration := cfg.maxDuration);
    }
    if cfg.minInterval > 0 && q.interval < cfg.minInterval {
      q := q.(interval := cfg.minInterval);
    }
    if cfg.timeout > 0 && q.interval > cfg.timeout / 4 {
      q := q.(interval := cfg.timeout / 4);
    }
  }

  method RestrictFormat(cfg: ServerConfig, p: Params) returns (q: Params)
    ensures q == p.(length := AtMost(p.length, cfg.maxLength), stampAt := cfg.allowStamp.Restrict(p.stampAt),
                    dscp := if cfg.allowDSCP && cfg.dscpSupport then p.dscp else 0)
  {
    q := p;
    if cfg.maxLength > 0 && q.length > cfg.maxLength {
      q := q.(length := cfg.maxLength);
    }
    q := q.(stampAt := cfg.allowStamp.Restrict(q.stampAt));
    if !cfg.allowDSCP || !cfg.dscpSupport {
      q := q.(dscp := 0);
    }
  }

  method RestrictFill(cfg: ServerConfig, fill: bytes) returns (r: bytes)
    ensures r == if FillAllowed(cfg, fill) then fill else DEFAULT_FILL
  {
    r := fill;
    if |fill| > 0 {
      var allowed := GlobAny(cfg.allowFills, fill);
      if !allowed {
        r := DEFAULT_FILL;
      }
    }
  }

  /** Restricting twice changes nothing more. */
  lemma RestrictIdempotent(cfg: ServerConfig, p: Params)
    ensures Restricted(cfg, Restricted(cfg, p)) == Restricted(cfg, p)
  {
    hide FillAllowed;
  }

  /** `x` is within the limit, or there is none. */
  predicate Within(x: i64, limit: i64) { limit <= 0 || x <= limit }

  /** The interval is at least the server's minimum, unless it is just what the timeout allows. */
  predicate IntervalPermitted(cfg: ServerConfig, interval: i64) {
    && (cfg.timeout <= 0 || 4 * interval <= cfg.timeout)
    && (cfg.minInterval <= 0 || interval >= cfg.minInterval || (cfg.timeout > 0 && 4 * (interval + 1) > cfg.timeout))
  }

  function Apart(x: int, y: int): nat { if x <= y then y - x else x - y }

  /** `r` is the value nearest to the one asked for of those that are permitted. */
  ghost predicate Nearest(asked: i64, r: i64, permitted: i64 -> bool) {
    permitted(r) && forall y: i64 :: permitted(y) ==> Apart(asked, r) <= Apart(asked, y)
  }

  /** The client gets the duration, the interval and the length that are nearest to those it asked for, and the
      stamps that it asked for, or one in the middle if just one is allowed. */
  lemma RestrictedIsNearest(cfg: ServerConfig, p: Params)
    ensures var q := Restricted(cfg, p);
            && Nearest(p.duration, q.duration, (x: i64) => Within(x, cfg.maxDuration))
            && Nearest(p.length, q.length, (x: i64) => Within(x, cfg.maxLength))
            && Nearest(p.interval, q.interval, (x: i64) => IntervalPermitted(cfg, x))
            && q.stampAt == (if p.stampAt == AT_NONE || cfg.allowStamp == NoStamp then AT_NONE
                             else if p.stampAt == AT_BOTH && cfg.allowStamp == SingleStamp then AT_MIDPOINT
                             else p.stampAt)
  {
    hide FillAllowed;
  }

  /** What the server grants. It also replaces a fill of which it cannot make a filler. */
  ghost function Granted(cfg: ServerConfig, p: Params): Params {
    var q := Restricted(cfg, p);
    if q.serverFill != [] && q.serverFill != DEFAULT_FILL && FillerOf(q.serverFill) == Unusable
    then q.(serverFill := DEFAULT_FILL) else q
  }

  /** It panics if the fill asks for an empty pattern. */
  ghost predicate Builds(cfg: ServerConfig, p: Params) { !EmptyPattern(Restricted(cfg, p).serverFill) }

  lemma BuildsExactly(cfg: ServerConfig, p: Params)
    ensures Builds(cfg, p) <==> !(EmptyPattern(p.serverFill) && FillAllowed(cfg, p.serverFill))
  {
    hide FillAllowed, EmptyPattern, RestrictedInterval, AtMost;
    DefaultFillBuilds();
  }

  const DEFAULT_DIGITS: bytes := [54, 57, 55, 50, 55, 52, 55, 52]

  lemma DefaultDigits()
    ensures IsHex(DEFAULT_DIGITS, DEFAULT_PATTERN)
  {
    var s, b := DEFAULT_DIGITS, DEFAULT_PATTERN;
    assert IsDigit(s[0], b[0] / 16) && IsDigit(s[1], b[0] % 16) && IsDigit(s[2], b[1] / 16) && IsDigit(s[3], b[1] % 16);
    assert IsDigit(s[4], b[2] / 16) && IsDigit(s[5], b[2] % 16) && IsDigit(s[6], b[3] / 16) && IsDigit(s[7], b[3] % 16);
    hide IsDigit;
  }

  /** The default fill is that of the default pattern. */
  lemma DefaultFillMeans()
    ensures FillerOf(DEFAULT_FILL) == PatternFill(DEFAULT_PATTERN)
  {
    hide FillerOf, IsHex;
    DefaultDigits();
    assert DEFAULT_FILL == PatternString(DEFAULT_DIGITS);
    PatternFillExactly(DEFAULT_DIGITS, DEFAULT_PATTERN);
  }

  lemma DefaultFillBuilds()
    ensures !EmptyPattern(DEFAULT_FILL)
  {
    hide EmptyPattern;
    EmptyPatternExactly(DEFAULT_FILL);
    assert DEFAULT_FILL[8] != COLON;
  }

  /** No allowed glob lets an empty pattern through. */
  ghost predicate SafeFills(cfg: ServerConfig) {
    forall g :: g in cfg.allowFills ==> SafeGlob(g, MAX_SERVER_FILL_LEN)
  }

  /** The server can build a filler for every request exactly if its allowed fills are safe. */
  lemma SafeFillsExactly(cfg: ServerConfig)
    ensures SafeFills(cfg) <==> forall p: Params :: |p.serverFill| <= MAX_SERVER_FILL_LEN ==> Builds(cfg, p)
  {
    hide EmptyPattern, SafeGlob, Builds, Matches;
    if SafeFills(cfg) {
      forall p: Params | |p.serverFill| <= MAX_SERVER_FILL_LEN ensures Builds(cfg, p) {
        BuildsExactly(cfg, p);
        forall g | g in cfg.allowFills ensures EmptyPattern(p.serverFill) ==> !Matches(g, p.serverFill) {
          SafeGlobExactly(g, MAX_SERVER_FILL_LEN);
        }
        NotEmptyItself(p.serverFill);
      }
    } else {
      var fill := UnsafeFill(cfg);
    }
  }

  lemma NotEmptyItself(s: bytes)
    ensures EmptyPattern(s) ==> s != []
  {
  }

  /** A fill for which the server cannot build a filler. */
  lemma UnsafeFill(cfg: ServerConfig) returns (p: Params)
    requires !SafeFills(cfg)
    ensures p == SomeClient(p.serverFill) && |p.serverFill| <= MAX_SERVER_FILL_LEN && !Builds(cfg, p)
  {
    hide EmptyPattern, SafeGlob, Builds, Matches;
    var g :| g in cfg.allowFills && !SafeGlob(g, MAX_SERVER_FILL_LEN);
    SafeGlobExactly(g, MAX_SERVER_FILL_LEN);
    var fill: bytes :| |fill| <= MAX_SERVER_FILL_LEN && EmptyPattern(fill) && Matches(g, fill);
    p := SomeClient(fill);
    BuildsExactly(cfg, p);
  }

  /** A valid client that asks for this fill. */
  function SomeClient(fill: bytes): Params {
    ZERO_PARAMS.(duration := SECOND, interval := SECOND, serverFill := fill)
  }

  /** For example, a server that allows any fill cannot build one for `pattern:`. */
  lemma AnyFillIsUnsafe(cfg: ServerConfig)
    requires [STAR] in cfg.allowFills
    ensures !Builds(cfg, SomeClient(PatternColon()))
  {
    EmptyPatternExactly(PatternColon());
    assert Matches([STAR][1..], PatternColon()[|PatternColon()|..]);
    assert Matches([STAR], PatternColon());
    hide Matches, EmptyPattern;
    BuildsExactly(cfg, SomeClient(PatternColon()));
  }

  // Client

  datatype Code = ProtocolVersionMismatch | ServerRestriction | InvalidServerRestriction

  datatype ParamField = VersionField | DurationField | IntervalField | LengthField | StampAtField
                 | ClockField | DSCPField | FillField

  datatype Finding = Finding(code: Code, field: ParamField)

  function AddIf(fs: seq<Finding>, found: bool, f: Finding): (r: seq<Finding>)
    ensures forall g :: g in r <==> g in fs || (found && g == f)
  {
    if found then fs + [f] else fs
  }

  function TimingFindings(was: Params, now: Params): seq<Finding> {
    var fs := AddIf([], now.protocolVersion != PROTOCOL_VERSION, Finding(ProtocolVersionMismatch, VersionField));
    var fs := AddIf(fs, now.duration < was.duration, Finding(ServerRestriction, DurationField));
    var fs := AddIf(fs, now.duration > was.duration, Finding(InvalidServerRestriction, DurationField));
    var fs := AddIf(fs, now.interval > was.interval, Finding(ServerRestriction, IntervalField));
    var fs := AddIf(fs, now.interval < was.interval && now.interval < MIN_RESTRICTED_INTERVAL,
                    Finding(InvalidServerRestriction, IntervalField));
    AddIf(fs, MIN_RESTRICTED_INTERVAL <= now.interval < was.interval, Finding(ServerRestriction, IntervalField))
  }

  /** Everything the client may object to, in the order in which it looks. */
  function Findings(was: Params, now: Params): seq<Finding> {
    var fs := TimingFindings(was, now);
    var fs := AddIf(fs, now.length < was.length, Finding(ServerRestriction, LengthField));
    var fs := AddIf(fs, now.length > was.length, Finding(InvalidServerRestriction, LengthField));
    var fs := AddIf(fs, now.stampAt != was.stampAt, Finding(ServerRestriction, StampAtField));
    var fs := AddIf(fs, now.clock != was.clock, Finding(ServerRestriction, ClockField));
    var fs := AddIf(fs, now.dscp != was.dscp, Finding(ServerRestriction, DSCPField));
    AddIf(fs, now.serverFill != was.serverFill, Finding(ServerRestriction, FillField))
  }

  /** A loose client puts up with restrictions. */
  predicate Fatal(loose: bool, f: Finding) { !loose || f.code != ServerRestriction }

  ghost predicate Accepts(loose: bool, was: Params, now: Params) {
    forall f :: f in Findings(was, now) ==> !Fatal(loose, f)
  }

  /** The first fatal finding of `fs` is the error, and `told` are the findings before it. */
  ghost predicate Judged(loose: bool, fs: seq<Finding>, told: seq<Finding>, err: Option<Finding>) {
    && (forall f :: f in told ==> !Fatal(loose, f))
    && match err
       case None => told == fs
       case Some(f) => told + [f] <= fs && Fatal(loose, f)
  }

  /** The error is decided by whether any finding is fatal. */
  lemma JudgedMeans(loose: bool, was: Params, now: Params, told: seq<Finding>, err: Option<Finding>)
    requires Judged(loose, Findings(was, now), told, err)
    ensures err.None? <==> Accepts(loose, was, now)
  {
    hide Findings;
    if err.Some? {
      assert Findings(was, now)[|told|] == (told + [err.value])[|told|];
      assert err.value in Findings(was, now);
    }
  }

  class Client {
    const loose: bool
    const supplied: Params
    var params: Params
    /** The restrictions that the user was told about. */
    var events: seq<Finding>

    constructor (loose: bool, supplied: Params)
      ensures this.loose == loose && this.supplied == supplied && params == supplied && events == []
    {
      this.loose, this.supplied, params, events := loose, supplied, supplied, [];
    }

    /** Objects to `f` if it was found, unless there is an error already. */
    method Object(err: Option<Finding>, found: bool, f: Finding, ghost before: seq<Finding>, ghost done: seq<Finding>)
      returns (err': Option<Finding>, ghost done': seq<Finding>)
      requires before <= events && Judged(loose, done, events[|before|..], err)
      modifies this`events
      ensures before <= events && done' == AddIf(done, found, f)
      ensures Judged(loose, done', events[|before|..], err')
    {
      err', done' := err, AddIf(done, found, f);
      if err.None? && found {
        if loose && f.code == ServerRestriction {
          events := events + [f];
          assert events[|before|..] == old(events[|before|..]) + [f];
        } else {
          err' := Some(f);
        }
      }
    }

    method CheckTiming(ghost before: seq<Finding>) returns (err: Option<Finding>)
      requires events == before
      modifies this`events
      ensures before <= events
      ensures Judged(loose, TimingFindings(supplied, params), events[|before|..], err)
    {
      hide AddIf;
      var was, now := supplied, params;
      ghost var done := [];
      err, done := Object(None, now.protocolVersion != PROTOCOL_VERSION,
                          Finding(ProtocolVersionMismatch, VersionField), before, done);
      hide Judged;
      err, done := Object(err, now.duration < was.duration,
                          Finding(ServerRestriction, DurationField), before, done);
      err, done := Object(err, now.duration > was.duration,
                          Finding(InvalidServerRestriction, DurationField), before, done);
      err, done := Object(err, now.interval > was.interval,
                          Finding(ServerRestriction, IntervalField), before, done);
      err, done := Object(err, now.interval < was.interval && now.interval < MIN_RESTRICTED_INTERVAL,
                          Finding(InvalidServerRestriction, IntervalField), before, done);
      err, done := Object(err, MIN_RESTRICTED_INTERVAL <= now.interval < was.interval,
                          Finding(ServerRestriction, IntervalField), before, done);
    }

    method CheckFormat(err0: Option<Finding>, ghost before: seq<Finding>) returns (err: Option<Finding>)
      requires before <= events
      requires Judged(loose, TimingFindings(supplied, params), events[|before|..], err0)
      modifies this`events
      ensures before <= events
      ensures Judged(loose, Findings(supplied, params), events[|before|..], err)
    {
      hide AddIf, Judged, TimingFindings;
      var was, now := supplied, params;
      ghost var done := TimingFindings(was, now);
      err, done := Object(err0, now.length < was.length,
                          Finding(ServerRestriction, LengthField), before, done);
      err, done := Object(err, now.length > was.length,
                          Finding(InvalidServerRestriction, LengthField), before, done);
      err, done := Object(err, now.stampAt != was.stampAt,
                          Finding(ServerRestriction, StampAtField), before, done);
      err, done := Object(err, now.clock != was.clock,
                          Finding(ServerRestriction, ClockField), before, done);
      err, done := Object(err, now.dscp != was.dscp,
                          Finding(ServerRestriction, DSCPField), before, done);
      err, done := Object(err, now.serverFill != was.serverFill,
                          Finding(ServerRestriction, FillField), before, done);
    }

    method CheckParameters() returns (err: Option<Finding>)
      modifies this`events
      ensures old(events) <= events
      ensures Judged(loose, Findings(supplied, params), events[|old(events)|..], err)
      ensures err.None? <==> Accepts(loose, supplied, params)
    {
      err := CheckTiming(events);
      err := CheckFormat(err, old(events));
      JudgedMeans(loose, supplied, params, events[|old(events)|..], err);
    }
  }

  // Agreement

  /** What the client's `validate` demands, with enumerations in range. */
  predicate ValidClient(p: Params) {
    && p.interval > 0 && p.duration > 0 && |p.serverFill| <= MAX_SERVER_FILL_LEN
    && FormatInRange(p) && 0 <= p.clock <= 3
  }

  /** What the client reads back: both directions go through the codec. `None` means that it gets no answer,
      because the server panics or cannot read the request. */
  ghost function AnswerTo(cfg: ServerConfig, p: Params): Option<Params> {
    var request := Decode(ZERO_PARAMS, Encode(p));
    if request.Err? || !Builds(cfg, request.value) then None
    else
      var answer := Decode(ZERO_PARAMS, Encode(Granted(cfg, request.value)));
      if answer.Err? then None else Some(answer.value)
  }

  lemma AnswerIsGranted(cfg: ServerConfig, p: Params)
    requires ValidClient(p)
    ensures Builds(cfg, ClippedParams(p)) <==> Builds(cfg, p)
    ensures AnswerTo(cfg, p) == if Builds(cfg, p) then Some(Granted(cfg, ClippedParams(p))) else None
  {
    hide Decode, Encode, FillAllowed, FillerOf, EmptyPattern;
    DecodeOfEncode(p);
    var granted := Granted(cfg, ClippedParams(p));
    assert InRange(granted);
    RoundTripExactly(granted);
  }

  lemma AcceptsMeans(loose: bool, was: Params, now: Params)
    ensures loose ==> (Accepts(loose, was, now) <==>
      && now.protocolVersion == PROTOCOL_VERSION
      && now.duration <= was.duration && now.length <= was.length
      && (now.interval >= was.interval || now.interval >= MIN_RESTRICTED_INTERVAL))
    ensures !loose ==> (Accepts(loose, was, now) <==> Findings(was, now) == [])
  {
    hide AddIf;
    var found := Findings(was, now);
    assert found != [] ==> found[0] in found;
    assert Finding(ProtocolVersionMismatch, VersionField) in found <==> now.protocolVersion != PROTOCOL_VERSION;
    assert Finding(InvalidServerRestriction, DurationField) in found <==> now.duration > was.duration;
    assert Finding(InvalidServerRestriction, LengthField) in found <==> now.length > was.length;
    assert Finding(InvalidServerRestriction, IntervalField) in found
      <==> now.interval < was.interval && now.interval < MIN_RESTRICTED_INTERVAL;
  }

  /** The part of the answer that a loose client checks. */
  lemma LooseChecks(cfg: ServerConfig, p: Params)
    requires ValidClient(p) && Builds(cfg, p)
    ensures AnswerTo(cfg, p).Some?
    ensures Accepts(true, p, AnswerTo(cfg, p).value) <==>
            (RestrictedInterval(cfg, p.interval) >= p.interval ||
             RestrictedInterval(cfg, p.interval) >= MIN_RESTRICTED_INTERVAL)
  {
    AnswerIsGranted(cfg, p);
    hide FillAllowed, FillerOf, Builds, Findings, Accepts, Decode, Encode, RestrictedInterval;
    AcceptsMeans(true, p, AnswerTo(cfg, p).value);
  }

  /** A client gets an answer and accepts it. */
  ghost predicate Agrees(cfg: ServerConfig, loose: bool, p: Params) {
    AnswerTo(cfg, p).Some? && Accepts(loose, p, AnswerTo(cfg, p).value)
  }

  /** A quarter of the server's timeout leaves room for the client's interval, or for the least restricted one. */
  predicate RoomForInterval(cfg: ServerConfig, p: Params) {
    cfg.timeout <= 0 || cfg.timeout >= 4 * p.interval || cfg.timeout >= 4 * MIN_RESTRICTED_INTERVAL
  }

  lemma RoomExactly(cfg: ServerConfig, p: Params)
    ensures RoomForInterval(cfg, p) <==>
            (RestrictedInterval(cfg, p.interval) >= p.interval ||
             RestrictedInterval(cfg, p.interval) >= MIN_RESTRICTED_INTERVAL)
  {
  }

  /** A loose client agrees exactly when there is room for its interval and the server can build its filler. */
  lemma LooseAgreesExactly(cfg: ServerConfig, p: Params)
    requires ValidClient(p)
    ensures Agrees(cfg, true, p) <==> RoomForInterval(cfg, p) && Builds(cfg, p)
  {
    hide Accepts, AnswerTo, Builds, RestrictedInterval, RoomForInterval, Granted, ValidClient, ClippedParams;
    AnswerIsGranted(cfg, p);
    RoomExactly(cfg, p);
    if Builds(cfg, p) {
      LooseChecks(cfg, p);
    }
  }

  /** A server agrees with every valid loose client exactly when its timeout is off or at least 4s, and its allowed
      fills are safe. */
  lemma ServerAgreesExactly(cfg: ServerConfig)
    ensures (forall p :: ValidClient(p) ==> Agrees(cfg, true, p))
       <==> (cfg.timeout <= 0 || cfg.timeout >= 4 * SECOND) && SafeFills(cfg)
  {
    hide Agrees, Builds, SafeFills;
    forall p | ValidClient(p) ensures Agrees(cfg, true, p) <==> RoomForInterval(cfg, p) && Builds(cfg, p) {
      LooseAgreesExactly(cfg, p);
    }
    SafeFillsExactly(cfg);
    var slow := SomeClient([]);
    assert ValidClient(slow) && (RoomForInterval(cfg, slow) <==> cfg.timeout <= 0 || cfg.timeout >= 4 * SECOND);
    if !SafeFills(cfg) {
      var p := UnsafeFill(cfg);
      assert ValidClient(p);
    }
  }

  /** There is a filler for the fill, or there need not be one. */
  predicate UsableFill(fill: bytes) { fill == [] || (FillerOf(fill) != Unusable && !EmptyPattern(fill)) }

  /** The server has nothing to restrict. */
  ghost predicate Permitted(cfg: ServerConfig, p: Params) {
    && Within(p.duration, cfg.maxDuration) && Within(p.length, cfg.maxLength) && IntervalPermitted(cfg, p.interval)
    && (p.stampAt != AT_NONE ==> cfg.allowStamp != NoStamp)
    && (p.stampAt == AT_BOTH ==> cfg.allowStamp == DualStamps)
    && (p.dscp != 0 ==> cfg.allowDSCP && cfg.dscpSupport)
    && (p.serverFill == DEFAULT_FILL || (FillAllowed(cfg, p.serverFill) && UsableFill(p.serverFill)))
  }

  /** The fields that the client compares are those of `was`. */
  predicate SameTerms(was: Params, now: Params) {
    && now.protocolVersion == PROTOCOL_VERSION
    && now.duration == was.duration && now.interval == was.interval && now.length == was.length
    && now.stampAt == was.stampAt && now.clock == was.clock && now.dscp == was.dscp
    && now.serverFill == was.serverFill
  }

  lemma NoFindings(was: Params, now: Params)
    ensures Findings(was, now) == [] <==> SameTerms(was, now)
  {
  }

  /** The fill that the server grants. */
  lemma FillGranted(cfg: ServerConfig, p: Params)
    requires |p.serverFill| <= MAX_SERVER_FILL_LEN
    ensures Granted(cfg, ClippedParams(p)).serverFill == p.serverFill <==>
            p.serverFill == DEFAULT_FILL ||
            (FillAllowed(cfg, p.serverFill) && (p.serverFill == [] || FillerOf(p.serverFill) != Unusable))
  {
    hide FillAllowed, FillerOf, RestrictedInterval, AtMost;
  }

  lemma GrantedInFull(cfg: ServerConfig, p: Params)
    requires ValidClient(p)
    ensures SameTerms(p, Granted(cfg, ClippedParams(p))) && Builds(cfg, p) <==> Permitted(cfg, p)
  {
    hide FillAllowed, FillerOf, EmptyPattern, Builds;
    BuildsExactly(cfg, p);
    DefaultFillBuilds();
    NotEmptyItself(p.serverFill);
    FillGranted(cfg, p);
  }

  /** A strict client agrees exactly when it asked for nothing that the server restricts. */
  lemma StrictAgreesExactly(cfg: ServerConfig, p: Params)
    requires ValidClient(p)
    ensures Agrees(cfg, false, p) <==> Permitted(cfg, p)
  {
    AnswerIsGranted(cfg, p);
    GrantedInFull(cfg, p);
    var granted := Granted(cfg, ClippedParams(p));
    AcceptsMeans(false, p, granted);
    NoFindings(p, granted);
    hide AnswerTo, Granted, Builds, Accepts, Findings, SameTerms, Permitted;
  }

  /** The answer fits the codec's buffer if the request does. */
  lemma AnswerFits(cfg: ServerConfig, p: Params)
    requires ValidClient(p) && Compact(p)
    ensures |Encode(Granted(cfg, ClippedParams(p)))| <= 125
  {
    hide FillAllowed, FillerOf, Encode;
    EncodingFits(Granted(cfg, ClippedParams(p)));
  }

  /** `restrictParams`, and the filler built for the result. `None` is the panic on an empty pattern. */
  method GrantParams(cfg: ServerConfig, p: Params) returns (r: Option<Params>)
    ensures r == if Builds(cfg, p) then Some(Granted(cfg, p)) else None
  {
    hide Restricted, FillerOf;
    var q := RestrictParams(cfg, p);
    NotEmptyItself(q.serverFill);
    DefaultFillBuilds();
    if |q.serverFill| > 0 && q.serverFill != DEFAULT_FILL {
      if EmptyPattern(q.serverFill) {
        return None;
      }
      var kind, filler := NewFiller(q.serverFill);
      if kind.Unusable? {
        q := q.(serverFill := DEFAULT_FILL);
      }
    }
    r := Some(q);
  }

  /** The request and the answer arrive as they were sent, except that the fill is clipped. */
  lemma Arrives(cfg: ServerConfig, p: Params)
    requires ValidClient(p)
    ensures Decode(ZERO_PARAMS, Encode(p)) == Ok(ClippedParams(p))
    ensures Builds(cfg, ClippedParams(p)) <==> Builds(cfg, p)
  {
    hide Decode, Encode, Builds;
    AnswerIsGranted(cfg, p);
    DecodeOfEncode(p);
  }

  /** The server's side of the handshake: parse, restrict, encode. */
  method AnswerOpen(cfg: ServerConfig, request: bytes, ghost p: Params) returns (reply: Option<bytes>)
    requires ValidClient(p) && Compact(p) && request == Encode(p)
    ensures reply == if Builds(cfg, p) then Some(Encode(Granted(cfg, ClippedParams(p)))) else None
  {
    hide Decode, Encode, Builds, Granted, ValidClient, Compact, ClippedParams;
    var r := ParseParams(request);
    Arrives(cfg, p);
    var q := GrantParams(cfg, r.value);
    if q.None? {
      return None;
    }
    AnswerFits(cfg, p);
    var b := Bytes(q.value);
    reply := Some(b);
  }

  datatype Opened = NoAnswer | Rejected(finding: Finding) | Agreed

  /** The client's side, with the reply that the server gives to the client's own request. */
  method Open(client: Client, cfg: ServerConfig) returns (r: Opened)
    requires ValidClient(client.supplied) && Compact(client.supplied) && client.params == client.supplied
    modifies client
    ensures r.NoAnswer? <==> !Builds(cfg, client.supplied)
    ensures r.Agreed? <==> Agrees(cfg, client.loose, client.supplied)
    ensures client.params == if r.NoAnswer? then client.supplied else Granted(cfg, ClippedParams(client.supplied))
  {
    hide Decode, Encode, Builds, Granted, ValidClient, Compact, ClippedParams, Accepts;
    ghost var p := client.supplied;
    EncodingFits(p);
    var request := Bytes(client.params);
    var reply := AnswerOpen(cfg, request, p);
    AnswerIsGranted(cfg, p);
    if reply.None? {
      return NoAnswer;
    }
    var answer := ParseParams(reply.value);
    Arrives(cfg, p);
    client.params := answer.value;
    var err := client.CheckParameters();
    r := if err.None? then Agreed else Rejected(err.value);
  }
}
