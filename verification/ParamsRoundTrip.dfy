/** When the parameters survive their encoding, and how long it is. */
module ParamsRoundTrip {
  import opened Numbers
  import opened ParamsCodec
  import opened Varints

  /** The tag is read back first. */
  lemma TagReadBack(tag: nat, rest: bytes)
    requires tag < 0x80
    ensures ReadUvarint([tag] + rest) == Value(tag, 1)
  {
    assert Uvarint(tag) == [tag];
    UvarintRoundTrip(tag, rest);
  }

  lemma IntRoundTrip(tag: nat, v: i64, rest: bytes)
    requires WellTagged(IntItem(tag, v))
    ensures ItemAt(EncodeItem(IntItem(tag, v)) + rest) == Ok((IntItem(tag, v), |EncodeItem(IntItem(tag, v))|))
  {
    var b := [tag] + Varint(v) + rest;
    assert b == [tag] + (Varint(v) + rest);
    assert b[1..] == Varint(v) + rest;
    TagReadBack(tag, Varint(v) + rest);
    UvarintRoundTrip(ZigZag(v), rest);
    ZigZagRoundTrip(v);
  }

  lemma ReadStringBack(s: bytes, maxLen: nat, rest: bytes)
    requires |s| <= maxLen
    ensures |s| < TWO_64 ==>
              ReadString(Uvarint(|s|) + s + rest, maxLen) == Ok((s, |Uvarint(|s|) + s|))
  {
    if |s| < TWO_64 {
      var b := Uvarint(|s|) + s + rest;
      assert b == Uvarint(|s|) + (s + rest);
      UvarintRoundTrip(|s|, s + rest);
      assert b[|Uvarint(|s|)|..|Uvarint(|s|)| + |s|] == s;
    }
  }

  lemma StringRoundTrip(tag: nat, s: bytes, rest: bytes)
    requires WellTagged(StringItem(tag, s)) && |s| <= MaxLen(tag)
    ensures ItemAt([tag] + (Uvarint(|s|) + s) + rest) == Ok((StringItem(tag, s), |[tag] + (Uvarint(|s|) + s)|))
  {
    var b := [tag] + (Uvarint(|s|) + s) + rest;
    assert b == [tag] + (Uvarint(|s|) + s + rest);
    assert b[1..] == Uvarint(|s|) + s + rest;
    TagReadBack(tag, Uvarint(|s|) + s + rest);
    ReadStringBack(s, MaxLen(tag), rest);
  }

  lemma ItemRoundTrip(it: Item, rest: bytes)
    requires WellTagged(it)
    ensures ItemAt(EncodeItem(it) + rest) == Ok((ClipItem(it), |EncodeItem(it)|))
  {
    match it
    case IntItem(tag, v) => IntRoundTrip(tag, v, rest);
    case StringItem(tag, s) => StringRoundTrip(tag, Clip(s, MaxLen(tag)), rest);
  }

  /** Goes on decoding `rest`, unless there has been an error. */
  function DecodeAfter(r: Result<Params>, rest: bytes): Result<Params> {
    if r.Ok? then Decode(r.value, rest) else r
  }

  lemma DecodeItem(p: Params, it: Item, rest: bytes)
    requires WellTagged(it)
    ensures Decode(p, EncodeItem(it) + rest) == DecodeAfter(Apply(p, ClipItem(it)), rest)
  {
    ItemRoundTrip(it, rest);
    assert (EncodeItem(it) + rest)[|EncodeItem(it)|..] == rest;
  }

  /** What the receiver does with a field of the sender. */
  function ApplyField(p: Params, it: Item): Result<Params>
    requires WellTagged(it)
  {
    if Omitted(it) then Ok(p) else Apply(p, ClipItem(it))
  }

  lemma DecodeField(p: Params, it: Item, rest: bytes)
    requires WellTagged(it)
    ensures Decode(p, EncodeUnlessOmitted(it) + rest) == DecodeAfter(ApplyField(p, it), rest)
  {
    if Omitted(it) {
      assert [] + rest == rest;
    } else {
      DecodeItem(p, it, rest);
    }
  }

  lemma DecodeTiming(q: Params, p: Params, rest: bytes)
    requires q.protocolVersion == q.duration == q.interval == q.intervalOffset == 0
    ensures Decode(q, EncodeTiming(p) + rest)
         == if p.duration < 0 || p.interval < 0 then Err(InvalidParamValue)
            else Decode(q.(protocolVersion := p.protocolVersion, duration := p.duration,
                           interval := p.interval, intervalOffset := p.intervalOffset), rest)
  {
    hide EncodeUnlessOmitted, Decode;
    var it1, it2 := IntItem(P_PROTOCOL_VERSION, p.protocolVersion), IntItem(P_DURATION, p.duration);
    var it3, it4 := IntItem(P_INTERVAL, p.interval), IntItem(P_INTERVAL_OFFSET, p.intervalOffset);
    var from4 := EncodeUnlessOmitted(it4) + rest;
    var from3 := EncodeUnlessOmitted(it3) + from4;
    var from2 := EncodeUnlessOmitted(it2) + from3;
    assert EncodeTiming(p) + rest == EncodeUnlessOmitted(it1) + from2;
    var q1 := q.(protocolVersion := p.protocolVersion);
    var q2 := q1.(duration := p.duration);
    var q3 := q2.(interval := p.interval);
    DecodeField(q, it1, from2);
    DecodeField(q1, it2, from3);
    DecodeField(q2, it3, from4);
    DecodeField(q3, it4, rest);
  }

  predicate FormatInRange(p: Params) {
    0 <= p.receivedStats <= 3 && 0 <= p.stampAt <= 4 && 0 <= p.tripMode <= 1
  }

  /** `q` with the fields that `EncodeFormat` sends. */
  function WithFormat(q: Params, p: Params): Params {
    q.(length := p.length, receivedStats := p.receivedStats, stampAt := p.stampAt, tripMode := p.tripMode)
  }

  lemma DecodeFormat(q: Params, p: Params, rest: bytes)
    requires q.length == q.receivedStats == q.stampAt == q.tripMode == 0
    ensures FormatInRange(p) ==> Decode(q, EncodeFormat(p) + rest) == Decode(WithFormat(q, p), rest)
    ensures !FormatInRange(p) ==> Decode(q, EncodeFormat(p) + rest).Err?
  {
    hide EncodeUnlessOmitted, Decode;
    var it1, it2 := IntItem(P_LENGTH, p.length), IntItem(P_RECEIVED_STATS, p.receivedStats);
    var it3, it4 := IntItem(P_STAMP_AT, p.stampAt), IntItem(P_TRIP_MODE, p.tripMode);
    var from4 := EncodeUnlessOmitted(it4) + rest;
    var from3 := EncodeUnlessOmitted(it3) + from4;
    var from2 := EncodeUnlessOmitted(it2) + from3;
    assert EncodeFormat(p) + rest == EncodeUnlessOmitted(it1) + from2;
    var q1 := q.(length := p.length);
    var q2 := q1.(receivedStats := p.receivedStats);
    var q3 := q2.(stampAt := p.stampAt);
    DecodeField(q, it1, from2);
    DecodeField(q1, it2, from3);
    DecodeField(q2, it3, from4);
    DecodeField(q3, it4, rest);
  }

  lemma DecodeGroup(q: Params, p: Params, rest: bytes)
    requires q.multiply == q.clock == 0 && q.group == []
    ensures Decode(q, EncodeGroup(p) + rest)
         == if p.clock < 0 || p.clock > 3 then Err(InvalidClockInt)
            else Decode(q.(multiply := p.multiply, group := Clip(p.group, MAX_GROUP_LEN), clock := p.clock), rest)
  {
    hide EncodeUnlessOmitted, Decode;
    var it1, it2 := IntItem(P_MULTIPLY, p.multiply), StringItem(P_GROUP, p.group);
    var it3 := IntItem(P_CLOCK, p.clock);
    var from3 := EncodeUnlessOmitted(it3) + rest;
    var from2 := EncodeUnlessOmitted(it2) + from3;
    assert EncodeGroup(p) + rest == EncodeUnlessOmitted(it1) + from2;
    var q1 := q.(multiply := p.multiply);
    var q2 := q1.(group := Clip(p.group, MAX_GROUP_LEN));
    DecodeField(q, it1, from2);
    DecodeField(q1, it2, from3);
    DecodeField(q2, it3, rest);
  }

  lemma DecodeNothing(q: Params)
    ensures Decode(q, []) == Ok(q)
  {
  }

  lemma DecodeMarking(q: Params, p: Params)
    requires q.dscp == 0 && q.serverFill == []
    ensures Decode(q, EncodeMarking(p))
         == Ok(q.(dscp := p.dscp, serverFill := Clip(p.serverFill, MAX_SERVER_FILL_LEN)))
  {
    hide EncodeUnlessOmitted, Decode;
    var it1, it2 := IntItem(P_DSCP, p.dscp), StringItem(P_SERVER_FILL, p.serverFill);
    var from2 := EncodeUnlessOmitted(it2) + [];
    assert EncodeMarking(p) == EncodeUnlessOmitted(it1) + from2;
    DecodeField(q, it1, from2);
    DecodeField(q.(dscp := p.dscp), it2, []);
    DecodeNothing(q.(dscp := p.dscp, serverFill := Clip(p.serverFill, MAX_SERVER_FILL_LEN)));
  }

  /** What the parameters are after both strings are cut to their greatest lengths. */
  function ClippedParams(p: Params): Params {
    p.(group := Clip(p.group, MAX_GROUP_LEN), serverFill := Clip(p.serverFill, MAX_SERVER_FILL_LEN))
  }

  predicate NumbersInRange(p: Params) {
    p.duration >= 0 && p.interval >= 0 && FormatInRange(p) && 0 <= p.clock <= 3
  }

  predicate InRange(p: Params) {
    NumbersInRange(p) && |p.group| <= MAX_GROUP_LEN && |p.serverFill| <= MAX_SERVER_FILL_LEN
  }

  /** What the receiver makes of any parameters: an error exactly when some number is out of range, and
      otherwise the parameters with both strings cut to their greatest lengths. */
  lemma DecodeOfEncode(p: Params)
    ensures NumbersInRange(p) ==> Decode(ZERO_PARAMS, Encode(p)) == Ok(ClippedParams(p))
    ensures !NumbersInRange(p) ==> Decode(ZERO_PARAMS, Encode(p)).Err?
  {
    hide EncodeTiming, EncodeFormat, EncodeGroup, EncodeMarking, Decode;
    var q1 := ZERO_PARAMS.(protocolVersion := p.protocolVersion, duration := p.duration,
                           interval := p.interval, intervalOffset := p.intervalOffset);
    var q2 := q1.(length := p.length, receivedStats := p.receivedStats, stampAt := p.stampAt, tripMode := p.tripMode);
    var q3 := q2.(multiply := p.multiply, group := Clip(p.group, MAX_GROUP_LEN), clock := p.clock);
    var from3 := EncodeGroup(p) + EncodeMarking(p);
    var from2 := EncodeFormat(p) + from3;
    assert Encode(p) == EncodeTiming(p) + from2;
    DecodeTiming(ZERO_PARAMS, p, from2);
    DecodeFormat(q1, p, from3);
    DecodeGroup(q2, p, EncodeMarking(p));
    DecodeMarking(q3, p);
  }

  /** The round trip succeeds exactly for parameters in range. */
  lemma RoundTripExactly(p: Params)
    ensures Decode(ZERO_PARAMS, Encode(p)) == Ok(p) <==> InRange(p)
  {
    DecodeOfEncode(p);
  }

  // Length

  predicate Fits32(x: int) { -0x8000_0000 <= x < 0x8000_0000 }

  predicate Compact(p: Params) {
    && Fits32(p.protocolVersion) && Fits32(p.length) && Fits32(p.multiply) && Fits32(p.dscp)
    && FormatInRange(p) && 0 <= p.clock <= 3
  }

  lemma GroupSizes()
    ensures Groups(1) == 0x80 && Groups(5) == 0x8_0000_0000 && Groups(10) == 0x40_0000_0000_0000_0000
  {
    assert Groups(3) == 0x20_0000;
    assert Groups(7) == 0x2_0000_0000_0000;
    assert Groups(9) == 0x8000_0000_0000_0000;
  }

  lemma VarintLengths(x: i64)
    ensures |Varint(x)| <= 10
    ensures Fits32(x) ==> |Varint(x)| <= 5
    ensures 0 <= x <= 63 ==> |Varint(x)| == 1
  {
    var z := ZigZag(x);
    UvarintLength(z, 10);
    UvarintLength(z, 5);
    UvarintLength(z, 1);
    GroupSizes();
  }

  /** The longest encoding of a field. */
  lemma FieldFits(it: Item)
    requires WellTagged(it)
    ensures it.IntItem? ==> |EncodeUnlessOmitted(it)| <= 11
    ensures it.IntItem? && Fits32(it.v) ==> |EncodeUnlessOmitted(it)| <= 6
    ensures it.IntItem? && 0 <= it.v <= 63 ==> |EncodeUnlessOmitted(it)| <= 2
    ensures it.StringItem? ==> |EncodeUnlessOmitted(it)| <= 2 + MaxLen(it.tag)
  {
    if it.IntItem? {
      VarintLengths(it.v);
    }
  }

  lemma TimingFits(p: Params)
    ensures |EncodeTiming(p)| <= if Fits32(p.protocolVersion) then 39 else 44
  {
    FieldFits(IntItem(P_PROTOCOL_VERSION, p.protocolVersion));
    FieldFits(IntItem(P_DURATION, p.duration));
    FieldFits(IntItem(P_INTERVAL, p.interval));
    FieldFits(IntItem(P_INTERVAL_OFFSET, p.intervalOffset));
  }

  lemma FormatFits(p: Params)
    requires Fits32(p.length) && FormatInRange(p)
    ensures |EncodeFormat(p)| <= 12
  {
    FieldFits(IntItem(P_LENGTH, p.length));
    FieldFits(IntItem(P_RECEIVED_STATS, p.receivedStats));
    FieldFits(IntItem(P_STAMP_AT, p.stampAt));
    FieldFits(IntItem(P_TRIP_MODE, p.tripMode));
  }

  lemma GroupFits(p: Params)
    requires Fits32(p.multiply) && 0 <= p.clock <= 3
    ensures |EncodeGroup(p)| <= 34
  {
    FieldFits(IntItem(P_MULTIPLY, p.multiply));
    FieldFits(StringItem(P_GROUP, p.group));
    FieldFits(IntItem(P_CLOCK, p.clock));
  }

  lemma MarkingFits(p: Params)
    requires Fits32(p.dscp)
    ensures |EncodeMarking(p)| <= 40
  {
    FieldFits(IntItem(P_DSCP, p.dscp));
    FieldFits(StringItem(P_SERVER_FILL, p.serverFill));
  }

  /** With 32-bit integers and valid enumerations, at most 125 of the buffer's 128 bytes are written. */
  lemma EncodingFits(p: Params)
    requires Compact(p)
    ensures |Encode(p)| <= 125
  {
    TimingFits(p);
    FormatFits(p);
    GroupFits(p);
    MarkingFits(p);
  }
}
