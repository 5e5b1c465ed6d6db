/** The test parameters and their tagged encoding. */
module ParamsCodec {
  import opened Numbers
  import opened Varints

  const PARAMS_MAX_LEN := 128
  const MAX_GROUP_LEN := 24
  const MAX_SERVER_FILL_LEN := 32

  const P_PROTOCOL_VERSION := 1
  const P_DURATION := 2
  const P_INTERVAL := 3
  const P_INTERVAL_OFFSET := 4
  const P_LENGTH := 5
  const P_RECEIVED_STATS := 6
  const P_STAMP_AT := 7
  const P_TRIP_MODE := 8
  const P_MULTIPLY := 9
  const P_GROUP := 10
  const P_CLOCK := 11
  const P_DSCP := 12
  const P_SERVER_FILL := 13

  /** Every number is as wide as Go's int64. The enumerations may hold any value. */
  datatype Params = Params(
    protocolVersion: i64, duration: i64, interval: i64, intervalOffset: i64, length: i64,
    receivedStats: i64, stampAt: i64, tripMode: i64, multiply: i64, group: bytes,
    clock: i64, dscp: i64, serverFill: bytes)

  const ZERO_PARAMS := Params(0, 0, 0, 0, 0, 0, 0, 0, 0, [], 0, 0, [])

  datatype ParamError =
    | ShortParamBuffer
    | ParamOverflow
    | InvalidParamValue
    | InvalidReceivedStatsInt
    | InvalidStampAtInt
    | InvalidTripModeInt
    | InvalidClockInt

  datatype Result<+T> = Ok(value: T) | Err(error: ParamError)

  /** One tagged value on the wire. */
  datatype Item = IntItem(tag: nat, v: i64) | StringItem(tag: nat, s: bytes)

  function MaxLen(tag: nat): nat { if tag == P_GROUP then MAX_GROUP_LEN else MAX_SERVER_FILL_LEN }

  predicate IsStringTag(tag: nat) { tag == P_GROUP || tag == P_SERVER_FILL }

  predicate WellTagged(it: Item) {
    it.tag < 0x80 && (it.StringItem? <==> IsStringTag(it.tag))
  }

  /** What `putString` keeps of a string. */
  function Clip(s: bytes, maxLen: nat): bytes { if |s| > maxLen then s[..maxLen] else s }

  function ClipItem(it: Item): Item {
    if it.IntItem? then it else StringItem(it.tag, Clip(it.s, MaxLen(it.tag)))
  }

  /** A tag below 128 is a one-byte varint. */
  function EncodeItem(it: Item): bytes
    requires WellTagged(it)
  {
    [it.tag] +
    match it
    case IntItem(_, v) => Varint(v)
    case StringItem(tag, s) => Uvarint(|Clip(s, MaxLen(tag))|) + Clip(s, MaxLen(tag))
  }

  /** Zero numbers and empty strings are left out. */
  predicate Omitted(it: Item) {
    match it
    case IntItem(_, v) => v == 0
    case StringItem(_, s) => s == []
  }

  function EncodeUnlessOmitted(it: Item): bytes
    requires WellTagged(it)
  {
    if Omitted(it) then [] else EncodeItem(it)
  }

  function EncodeTiming(p: Params): bytes {
    EncodeUnlessOmitted(IntItem(P_PROTOCOL_VERSION, p.protocolVersion)) +
    EncodeUnlessOmitted(IntItem(P_DURATION, p.duration)) +
    EncodeUnlessOmitted(IntItem(P_INTERVAL, p.interval)) +
    EncodeUnlessOmitted(IntItem(P_INTERVAL_OFFSET, p.intervalOffset))
  }

  function EncodeFormat(p: Params): bytes {
    EncodeUnlessOmitted(IntItem(P_LENGTH, p.length)) +
    EncodeUnlessOmitted(IntItem(P_RECEIVED_STATS, p.receivedStats)) +
    EncodeUnlessOmitted(IntItem(P_STAMP_AT, p.stampAt)) +
    EncodeUnlessOmitted(IntItem(P_TRIP_MODE, p.tripMode))
  }

  function EncodeGroup(p: Params): bytes {
    EncodeUnlessOmitted(IntItem(P_MULTIPLY, p.multiply)) +
    EncodeUnlessOmitted(StringItem(P_GROUP, p.group)) +
    EncodeUnlessOmitted(IntItem(P_CLOCK, p.clock))
  }

  function EncodeMarking(p: Params): bytes {
    EncodeUnlessOmitted(IntItem(P_DSCP, p.dscp)) +
    EncodeUnlessOmitted(StringItem(P_SERVER_FILL, p.serverFill))
  }

  /** What `bytes` writes: the thirteen fields, in the order of their tags. */
  function Encode(p: Params): bytes {
    EncodeTiming(p) + EncodeFormat(p) + EncodeGroup(p) + EncodeMarking(p)
  }

  // The format

  /** `b` is one value of a message: its tag, and a number or a string that is not too long. */
  ghost predicate IsField(b: bytes, it: Item) {
    exists k: nat :: 0 < k <= |b| && k <= MAX_VARINT_LEN && it.tag < TWO_64 && IsUvarint(b[..k], it.tag)
                     && IsContent(b[k..], it)
  }

  ghost predicate IsContent(b: bytes, it: Item) {
    match it
    case IntItem(tag, v) => !IsStringTag(tag) && |b| <= MAX_VARINT_LEN && IsUvarint(b, SignedCode(v))
    case StringItem(tag, s) => IsStringTag(tag) && |s| <= MaxLen(tag) && IsCounted(b, s)
  }

  /** `b` is the length of `s` and `s` itself. */
  ghost predicate IsCounted(b: bytes, s: bytes) {
    exists k: nat :: 0 < k <= |b| && k <= MAX_VARINT_LEN && IsUvarint(b[..k], |s|) && b[k..] == s
  }

  /** `b` is the values `items`, one after the other. */
  ghost predicate IsMessage(b: bytes, items: seq<Item>)
    decreases |items|
  {
    if items == [] then b == []
    else exists n: nat :: 0 < n <= |b| && IsField(b[..n], items[0]) && IsMessage(b[n..], items[1..])
  }

  /** What receiving `items` in this order does to `p`. */
  function ApplyAll(p: Params, items: seq<Item>): Result<Params>
    decreases |items|
  {
    if items == [] then Ok(p)
    else
      match Apply(p, items[0])
      case Err(e) => Err(e)
      case Ok(q) => ApplyAll(q, items[1..])
  }

  /** A field of the sender, which is left out if it is zero or empty. */
  function Sent(it: Item): seq<Item> { if Omitted(it) then [] else [ClipItem(it)] }

  /** What a sender puts into its message. */
  function ItemsOf(p: Params): seq<Item> { TimingItems(p) + FormatItems(p) + GroupItems(p) + MarkingItems(p) }

  function TimingItems(p: Params): seq<Item> {
    Sent(IntItem(1, p.protocolVersion)) + Sent(IntItem(2, p.duration)) + Sent(IntItem(3, p.interval))
    + Sent(IntItem(4, p.intervalOffset))
  }

  function FormatItems(p: Params): seq<Item> {
    Sent(IntItem(5, p.length)) + Sent(IntItem(6, p.receivedStats)) + Sent(IntItem(7, p.stampAt))
    + Sent(IntItem(8, p.tripMode))
  }

  function GroupItems(p: Params): seq<Item> {
    Sent(IntItem(9, p.multiply)) + Sent(StringItem(10, p.group)) + Sent(IntItem(11, p.clock))
  }

  function MarkingItems(p: Params): seq<Item> {
    Sent(IntItem(12, p.dscp)) + Sent(StringItem(13, p.serverFill))
  }

  // Reading

  /** A string of at most `maxLen` bytes: its bytes and where it ends. */
  function ReadString(b: bytes, maxLen: nat): (r: Result<(bytes, nat)>)
    ensures r.Ok? ==> 0 < r.value.1 <= |b|
  {
    match ReadUvarint(b)
    case TooShort => Err(ShortParamBuffer)
    case Overflow => Err(ParamOverflow)
    case Value(l, n) =>
      if l > maxLen then Err(ParamOverflow)
      else if |b| - n < l then Err(ShortParamBuffer)
      else Ok((b[n..n + l], n + l))
  }

  /** The first value of `b`, and how many bytes it takes. */
  function ItemAt(b: bytes): (r: Result<(Item, nat)>)
    ensures r.Ok? ==> 0 < r.value.1 <= |b|
  {
    match ReadUvarint(b)
    case TooShort => Err(ShortParamBuffer)
    case Overflow => Err(ParamOverflow)
    case Value(tag, n) =>
      match ContentAt(b[n..], tag)
      case Err(e) => Err(e)
      case Ok((it, m)) => Ok((it, n + m))
  }

  /** What a value does to the parameters read so far. Unknown tags are ignored. */
  function Apply(p: Params, it: Item): Result<Params> {
    match it
    case StringItem(tag, s) => Ok(if tag == P_GROUP then p.(group := s) else p.(serverFill := s))
    case IntItem(tag, v) =>
      match tag
      case 1 => Ok(p.(protocolVersion := v))
      case 2 => if v <= 0 then Err(InvalidParamValue) else Ok(p.(duration := v))
      case 3 => if v <= 0 then Err(InvalidParamValue) else Ok(p.(interval := v))
      case 4 => Ok(p.(intervalOffset := v))
      case 5 => Ok(p.(length := v))
      case 6 => if 0 <= v <= 3 then Ok(p.(receivedStats := v)) else Err(InvalidReceivedStatsInt)
      case 7 => if 0 <= v <= 4 then Ok(p.(stampAt := v)) else Err(InvalidStampAtInt)
      case 8 => if 0 <= v <= 1 then Ok(p.(tripMode := v)) else Err(InvalidTripModeInt)
      case 9 => Ok(p.(multiply := v))
      case 11 => if 1 <= v <= 3 then Ok(p.(clock := v)) else Err(InvalidClockInt)
      case 12 => Ok(p.(dscp := v))
      case _ => Ok(p)
  }

  /** The first value of `b` applied to `p`, and how many bytes it takes. */
  function DecodeOne(p: Params, b: bytes): (r: Result<(Params, nat)>)
    ensures r.Ok? ==> 0 < r.value.1 <= |b|
  {
    match ItemAt(b)
    case Err(e) => Err(e)
    case Ok((it, n)) =>
      match Apply(p, it)
      case Err(e) => Err(e)
      case Ok(q) => Ok((q, n))
  }

  /** The parameters encoded by `b`, on top of `p`. */
  function Decode(p: Params, b: bytes): Result<Params>
    decreases |b|
  {
    if b == [] then Ok(p)
    else
      match DecodeOne(p, b)
      case Err(e) => Err(e)
      case Ok((q, n)) => Decode(q, b[n..])
  }

  /** Reads one parameter of `b` into `p`. */
  method ReadParam(p: Params, b: bytes) returns (q: Params, n: nat, err: Option<ParamError>)
    ensures DecodeOne(p, b) == if err.Some? then Err(err.value) else Ok((q, n))
  {
    q, n, err := p, 0, None;
    var d := ReadUvarint(b);
    if !d.Value? {
      err := Some(if d.TooShort? then ShortParamBuffer else ParamOverflow);
      return;
    }
    var t, pos := d.v, d.n;
    if t == P_SERVER_FILL || t == P_GROUP {
      var s := ReadString(b[pos..], if t == P_SERVER_FILL then MAX_SERVER_FILL_LEN else MAX_GROUP_LEN);
      if s.Err? {
        err := Some(s.error);
        return;
      }
      q := if t == P_SERVER_FILL then q.(serverFill := s.value.0) else q.(group := s.value.0);
      n := pos + s.value.1;
      return;
    }
    d := ReadUvarint(b[pos..]);
    if !d.Value? {
      err := Some(if d.TooShort? then ShortParamBuffer else ParamOverflow);
      return;
    }
    var v := UnZigZag(d.v);
    n := pos + d.n;
    match t {
      case 1 => q := q.(protocolVersion := v);
      case 2 =>
        q := q.(duration := v);
        if v <= 0 {
          err := Some(InvalidParamValue);
        }
      case 3 =>
        q := q.(interval := v);
        if v <= 0 {
          err := Some(InvalidParamValue);
        }
      case 4 => q := q.(intervalOffset := v);
      case 5 => q := q.(length := v);
      case 6 =>
        q := q.(receivedStats := v);
        if v < 0 || v > 3 {
          err := Some(InvalidReceivedStatsInt);
        }
      case 7 =>
        q := q.(stampAt := v);
        if v < 0 || v > 4 {
          err := Some(InvalidStampAtInt);
        }
      case 8 =>
        q := q.(tripMode := v);
        if v < 0 || v > 1 {
          err := Some(InvalidTripModeInt);
        }
      case 9 => q := q.(multiply := v);
      case 11 =>
        q := q.(clock := v);
        if v < 1 || v > 3 {
          err := Some(InvalidClockInt);
        }
      case 12 => q := q.(dscp := v);
      case _ =>
    }
  }

  lemma DropTwice(b: bytes, i: nat, j: nat)
    requires i + j <= |b|
    ensures b[i..][j..] == b[i + j..]
  {
  }

  lemma DecodeStep(p: Params, b: bytes, pos: nat)
    requires pos < |b|
    ensures var r := DecodeOne(p, b[pos..]);
            Decode(p, b[pos..]) == if r.Ok? then Decode(r.value.0, b[pos + r.value.1..]) else Err(r.error)
  {
    var r := DecodeOne(p, b[pos..]);
    if r.Ok? {
      DropTwice(b, pos, r.value.1);
    }
  }

  /** A string is read exactly if its length and its bytes are there and it is not too long. */
  lemma ReadStringExactly(b: bytes, maxLen: nat, s: bytes, m: nat)
    requires maxLen < TWO_64
    ensures ReadString(b, maxLen) == Ok((s, m)) <==> m <= |b| && |s| <= maxLen && IsCounted(b[..m], s)
  {
    hide IsUvarint;
    var d := ReadUvarint(b);
    if d.Value? {
      ReadUvarintExactly(b, d.v, d.n);
      if m <= |b| {
        if d.n <= m {
          assert b[..m][..d.n] == b[..d.n] && b[..m][d.n..] == b[d.n..m];
        }
      }
    }
    if m <= |b| && |s| <= maxLen && IsCounted(b[..m], s) {
      var k: nat :| 0 < k <= m && k <= MAX_VARINT_LEN && IsUvarint(b[..m][..k], |s|) && b[..m][k..] == s;
      assert b[..m][..k] == b[..k];
      ReadUvarintExactly(b, |s|, k);
      assert b[..m][k..] == b[k..m];
    }
  }

  /** Otherwise the error tells why. */
  lemma ReadStringFails(b: bytes, maxLen: nat)
    ensures ReadString(b, maxLen).Err? && ReadUvarint(b).Value? ==>
              (ReadString(b, maxLen).error == ParamOverflow <==> ReadUvarint(b).v > maxLen)
    ensures !ReadUvarint(b).Value? ==>
              ReadString(b, maxLen) == Err(if ReadUvarint(b).TooShort? then ShortParamBuffer else ParamOverflow)
  {
  }

  /** A value is read exactly if the bytes start with it. */
  lemma ItemAtExactly(b: bytes, it: Item, n: nat)
    ensures ItemAt(b) == Ok((it, n)) <==> n <= |b| && IsField(b[..n], it)
  {
    hide IsUvarint, IsContent, ReadString;
    var d := ReadUvarint(b);
    if d.Value? {
      ReadUvarintExactly(b, d.v, d.n);
      ContentExactly(b[d.n..], it, n - d.n);
      if d.n <= n <= |b| {
        assert b[..n][..d.n] == b[..d.n];
        assert b[..n][d.n..] == b[d.n..][..n - d.n];
      }
    }
    if n <= |b| && IsField(b[..n], it) {
      var k: nat :| 0 < k <= n && k <= MAX_VARINT_LEN && it.tag < TWO_64 && IsUvarint(b[..n][..k], it.tag)
                    && IsContent(b[..n][k..], it);
      assert b[..n][..k] == b[..k];
      ReadUvarintExactly(b, it.tag, k);
    }
  }

  /** What follows a tag. */
  function ContentAt(b: bytes, tag: nat): (r: Result<(Item, nat)>)
    ensures r.Ok? ==> 0 < r.value.1 <= |b|
  {
    if IsStringTag(tag) then
      match ReadString(b, MaxLen(tag))
      case Err(e) => Err(e)
      case Ok((s, m)) => Ok((StringItem(tag, s), m))
    else
      match ReadUvarint(b)
      case TooShort => Err(ShortParamBuffer)
      case Overflow => Err(ParamOverflow)
      case Value(u, m) => Ok((IntItem(tag, UnZigZag(u)), m))
  }

  lemma NumberExactly(b: bytes, tag: nat, v: i64, m: int)
    requires !IsStringTag(tag)
    ensures ContentAt(b, tag) == Ok((IntItem(tag, v), m)) <==> 0 <= m <= |b| && IsContent(b[..m], IntItem(tag, v))
  {
    var d := ReadUvarint(b);
    if d.Value? {
      ReadUvarintExactly(b, d.v, d.n);
      UnZigZagExactly(d.v, v);
    }
    ZigZagMeans(v);
    if m > 0 {
      ReadUvarintExactly(b, ZigZag(v), m);
    }
    hide IsUvarint, ReadUvarint, UnZigZag, SignedCode, ZigZag;
    NoGroup();
  }

  lemma ContentExactly(b: bytes, it: Item, m: int)
    ensures ContentAt(b, it.tag) == Ok((it, m)) <==> 0 <= m <= |b| && IsContent(b[..m], it)
  {
    hide IsUvarint, IsCounted, ReadString, ReadUvarint;
    match it
    case IntItem(tag, v) =>
      if !IsStringTag(tag) {
        NumberExactly(b, tag, v, m);
      }
    case StringItem(tag, s) =>
      if m >= 0 {
        ReadStringExactly(b, MaxLen(tag), s, m);
      }
  }

  lemma FirstField(b: bytes, items: seq<Item>) returns (n: nat)
    requires IsMessage(b, items) && items != []
    ensures 0 < n <= |b| && IsField(b[..n], items[0]) && IsMessage(b[n..], items[1..])
  {
    n :| 0 < n <= |b| && IsField(b[..n], items[0]) && IsMessage(b[n..], items[1..]);
  }

  lemma FieldFirst(b: bytes, n: nat, it: Item, items: seq<Item>)
    requires 0 < n <= |b| && IsField(b[..n], it) && IsMessage(b[n..], items)
    ensures IsMessage(b, [it] + items)
  {
    hide IsField;
    assert ([it] + items)[1..] == items;
  }

  /** Some message of which `b` consists makes `q` of `p`. */
  ghost predicate Means(p: Params, b: bytes, q: Params) {
    exists items :: IsMessage(b, items) && ApplyAll(p, items) == Ok(q)
  }

  lemma NothingMeans(p: Params, q: Params)
    ensures Means(p, [], q) <==> p == q
  {
    assert IsMessage([], []) && ApplyAll(p, []) == Ok(p);
  }

  /** Parameters are decoded exactly if the bytes are a message of values that they may have. */
  lemma {:induction false} DecodeExactly(p: Params, b: bytes, q: Params)
    ensures Decode(p, b) == Ok(q) <==> Means(p, b, q)
    decreases |b|
  {
    hide IsField, IsMessage, ItemAt, Apply, Means;
    if b == [] {
      NothingMeans(p, q);
    } else {
      if Decode(p, b) == Ok(q) {
        var (it, n) := ItemAt(b).value;
        DecodeExactly(Apply(p, it).value, b[n..], q);
        MeansOneMore(p, b, it, n, q);
      }
      if Means(p, b, q) {
        var it, n := FirstMeant(p, b, q);
        DecodeExactly(Apply(p, it).value, b[n..], q);
      }
    }
  }

  lemma MeansOneMore(p: Params, b: bytes, it: Item, n: nat, q: Params)
    requires ItemAt(b) == Ok((it, n)) && Apply(p, it).Ok? && Means(Apply(p, it).value, b[n..], q)
    ensures Means(p, b, q)
  {
    hide IsField, ItemAt, Apply, IsMessage;
    ItemAtExactly(b, it, n);
    var items :| IsMessage(b[n..], items) && ApplyAll(Apply(p, it).value, items) == Ok(q);
    FieldFirst(b, n, it, items);
    assert ([it] + items)[1..] == items;
    assert ApplyAll(p, [it] + items) == Ok(q);
  }

  lemma FirstMeant(p: Params, b: bytes, q: Params) returns (it: Item, n: nat)
    requires b != [] && Means(p, b, q)
    ensures ItemAt(b) == Ok((it, n)) && Apply(p, it).Ok? && Means(Apply(p, it).value, b[n..], q)
  {
    hide IsField, ItemAt, Apply;
    var items :| IsMessage(b, items) && ApplyAll(p, items) == Ok(q);
    hide IsMessage;
    it := items[0];
    n := FirstField(b, items);
    ItemAtExactly(b, it, n);
  }

  /** Terminates on any bytes. */
  method ParseParams(b: bytes) returns (r: Result<Params>)
    ensures r == Decode(ZERO_PARAMS, b)
    ensures forall q :: r == Ok(q) <==> Means(ZERO_PARAMS, b, q)
  {
    hide DecodeOne, Means;
    forall q ensures Decode(ZERO_PARAMS, b) == Ok(q) <==> Means(ZERO_PARAMS, b, q) {
      DecodeExactly(ZERO_PARAMS, b, q);
    }
    var p := ZERO_PARAMS;
    var pos := 0;
    while pos < |b|
      invariant 0 <= pos <= |b|
      invariant Decode(ZERO_PARAMS, b) == Decode(p, b[pos..])
    {
      DecodeStep(p, b, pos);
      var q, n, err := ReadParam(p, b[pos..]);
      if err.Some? {
        return Err(err.value);
      }
      p := q;
      pos := pos + n;
    }
    return Ok(p);
  }

  // Writing

  /** `putString`, given room for the whole clipped string. */
  method PutString(b: array<byte>, pos: nat, s: bytes, maxLen: nat) returns (n: nat)
    requires maxLen < 0x80
    requires pos + 1 + |Clip(s, maxLen)| <= b.Length
    modifies b
    ensures n == 1 + |Clip(s, maxLen)|
    ensures b[..pos + n] == old(b[..pos]) + (Uvarint(|Clip(s, maxLen)|) + Clip(s, maxLen))
  {
    var l := |s|;
    if l > maxLen {
      l := maxLen;
    }
    n := PutUvarint(b, pos, l);
    var copied := Copy(b, pos + n, s[..l]);
    assert s[..l][..copied] == Clip(s, maxLen);
    n := n + copied;
  }

  lemma Associate(a: bytes, x: bytes, y: bytes)
    ensures (a + x) + y == a + (x + y)
  {
  }

  method PutInt(b: array<byte>, pos: nat, tag: nat, v: i64) returns (pos': nat)
    requires WellTagged(IntItem(tag, v)) && pos + |EncodeItem(IntItem(tag, v))| <= b.Length
    modifies b
    ensures pos <= pos' <= b.Length && b[..pos'] == old(b[..pos]) + EncodeItem(IntItem(tag, v))
  {
    var n := PutUvarint(b, pos, tag);
    pos' := pos + n;
    n := PutUvarint(b, pos', ZigZag(v));
    pos' := pos' + n;
    Associate(old(b[..pos]), Uvarint(tag), Varint(v));
  }

  method PutTaggedString(b: array<byte>, pos: nat, tag: nat, s: bytes) returns (pos': nat)
    requires WellTagged(StringItem(tag, s)) && pos + |EncodeItem(StringItem(tag, s))| <= b.Length
    modifies b
    ensures pos <= pos' <= b.Length && b[..pos'] == old(b[..pos]) + EncodeItem(StringItem(tag, s))
  {
    var n := PutUvarint(b, pos, tag);
    pos' := pos + n;
    n := PutString(b, pos', s, MaxLen(tag));
    pos' := pos' + n;
    var clipped := Clip(s, MaxLen(tag));
    Associate(old(b[..pos]), Uvarint(tag), Uvarint(|clipped|) + clipped);
  }

  method PutItem(b: array<byte>, pos: nat, it: Item) returns (pos': nat)
    requires WellTagged(it) && pos + |EncodeUnlessOmitted(it)| <= b.Length
    modifies b
    ensures pos <= pos' <= b.Length
    ensures b[..pos'] == old(b[..pos]) + EncodeUnlessOmitted(it)
  {
    pos' := pos;
    match it {
      case IntItem(tag, v) =>
        if v != 0 {
          pos' := PutInt(b, pos, tag, v);
        }
      case StringItem(tag, s) =>
        if |s| > 0 {
          pos' := PutTaggedString(b, pos, tag, s);
        }
    }
  }

  method PutTiming(b: array<byte>, pos: nat, p: Params) returns (pos': nat)
    requires pos + |EncodeTiming(p)| <= b.Length
    modifies b
    ensures pos <= pos' <= b.Length && b[..pos'] == old(b[..pos]) + EncodeTiming(p)
  {
    hide EncodeUnlessOmitted;
    pos' := PutItem(b, pos, IntItem(P_PROTOCOL_VERSION, p.protocolVersion));
    pos' := PutItem(b, pos', IntItem(P_DURATION, p.duration));
    pos' := PutItem(b, pos', IntItem(P_INTERVAL, p.interval));
    pos' := PutItem(b, pos', IntItem(P_INTERVAL_OFFSET, p.intervalOffset));
  }

  method PutFormat(b: array<byte>, pos: nat, p: Params) returns (pos': nat)
    requires pos + |EncodeFormat(p)| <= b.Length
    modifies b
    ensures pos <= pos' <= b.Length && b[..pos'] == old(b[..pos]) + EncodeFormat(p)
  {
    hide EncodeUnlessOmitted;
    pos' := PutItem(b, pos, IntItem(P_LENGTH, p.length));
    pos' := PutItem(b, pos', IntItem(P_RECEIVED_STATS, p.receivedStats));
    pos' := PutItem(b, pos', IntItem(P_STAMP_AT, p.stampAt));
    pos' := PutItem(b, pos', IntItem(P_TRIP_MODE, p.tripMode));
  }

  method PutGroup(b: array<byte>, pos: nat, p: Params) returns (pos': nat)
    requires pos + |EncodeGroup(p)| <= b.Length
    modifies b
    ensures pos <= pos' <= b.Length && b[..pos'] == old(b[..pos]) + EncodeGroup(p)
  {
    hide EncodeUnlessOmitted;
    pos' := PutItem(b, pos, IntItem(P_MULTIPLY, p.multiply));
    pos' := PutItem(b, pos', StringItem(P_GROUP, p.group));
    pos' := PutItem(b, pos', IntItem(P_CLOCK, p.clock));
  }

  method PutMarking(b: array<byte>, pos: nat, p: Params) returns (pos': nat)
    requires pos + |EncodeMarking(p)| <= b.Length
    modifies b
    ensures pos <= pos' <= b.Length && b[..pos'] == old(b[..pos]) + EncodeMarking(p)
  {
    hide EncodeUnlessOmitted;
    pos' := PutItem(b, pos, IntItem(P_DSCP, p.dscp));
    pos' := PutItem(b, pos', StringItem(P_SERVER_FILL, p.serverFill));
  }

  lemma FieldEncoded(it: Item)
    requires WellTagged(it)
    ensures IsField(EncodeItem(it), ClipItem(it)) && |EncodeItem(it)| > 0
  {
    var b := EncodeItem(it);
    UvarintMeans(it.tag);
    assert b[..1] == Uvarint(it.tag);
    ContentEncoded(it);
    hide IsContent;
  }

  /** What follows the tag. */
  lemma ContentEncoded(it: Item)
    requires WellTagged(it)
    ensures IsContent(EncodeItem(it)[1..], ClipItem(it))
  {
    match it
    case IntItem(_, v) =>
      ZigZagMeans(v);
      UvarintMeans(ZigZag(v));
      NumberFits(v);
      assert EncodeItem(it)[1..] == Uvarint(ZigZag(v));
    case StringItem(tag, s) =>
      var t := Clip(s, MaxLen(tag));
      UvarintMeans(|t|);
      assert EncodeItem(it)[1..] == Uvarint(|t|) + t;
      assert (Uvarint(|t|) + t)[..1] == Uvarint(|t|) && (Uvarint(|t|) + t)[1..] == t;
  }

  lemma NumberFits(v: i64)
    ensures |Uvarint(ZigZag(v))| <= MAX_VARINT_LEN
  {
    var b := Uvarint(ZigZag(v));
    UvarintRoundTrip(ZigZag(v), []);
    assert b + [] == b;
    ReadUvarintExactly(b, ZigZag(v), |b|);
  }

  lemma ContentShortest(b: bytes, it: Item)
    requires WellTagged(it) && IsContent(b, ClipItem(it))
    ensures var c := EncodeItem(it)[1..]; |c| < |b| || c == b
  {
    match it
    case IntItem(_, v) =>
      ZigZagMeans(v);
      UvarintShortest(b, ZigZag(v));
      assert EncodeItem(it)[1..] == Uvarint(ZigZag(v));
    case StringItem(tag, s) =>
      var t := Clip(s, MaxLen(tag));
      var k: nat :| 0 < k <= |b| && IsUvarint(b[..k], |t|) && b[k..] == t;
      UvarintShortest(b[..k], |t|);
      assert EncodeItem(it)[1..] == Uvarint(|t|) + t;
      assert b == b[..k] + b[k..];
  }

  lemma TagFirst(it: Item)
    requires WellTagged(it)
    ensures Uvarint(it.tag) == [it.tag] && EncodeItem(it) == [it.tag] + EncodeItem(it)[1..]
  {
  }

  lemma FieldShortest(b: bytes, it: Item)
    requires WellTagged(it) && IsField(b, ClipItem(it))
    ensures |EncodeItem(it)| < |b| || EncodeItem(it) == b
  {
    hide IsContent, EncodeItem, IsUvarint, Uvarint;
    var k: nat :| 0 < k <= |b| && IsUvarint(b[..k], it.tag) && IsContent(b[k..], ClipItem(it));
    TagFirst(it);
    UvarintShortest(b[..k], it.tag);
    ContentShortest(b[k..], it);
    assert b == b[..k] + b[k..];
  }

  ghost predicate AllSent(items: seq<Item>) { forall it :: it in items ==> WellTagged(it) && ClipItem(it) == it }

  function EncodeAll(items: seq<Item>): bytes
    requires AllSent(items)
  {
    if items == [] then [] else EncodeItem(items[0]) + EncodeAll(items[1..])
  }

  lemma {:induction false} EncodeAllMeans(items: seq<Item>)
    requires AllSent(items)
    ensures IsMessage(EncodeAll(items), items)
  {
    if items != [] {
      hide IsField;
      var b, first := EncodeAll(items), EncodeItem(items[0]);
      EncodeAllMeans(items[1..]);
      FieldEncoded(items[0]);
      assert b[..|first|] == first && b[|first|..] == EncodeAll(items[1..]);
    }
  }

  lemma FirstSent(items: seq<Item>)
    requires AllSent(items) && items != []
    ensures WellTagged(items[0]) && ClipItem(items[0]) == items[0] && AllSent(items[1..])
    ensures EncodeAll(items) == EncodeItem(items[0]) + EncodeAll(items[1..])
  {
    hide EncodeItem;
  }

  lemma NothingSent(b: bytes)
    ensures IsMessage(b, []) ==> b == EncodeAll([])
  {
  }

  lemma {:induction false} EncodeAllShortest(b: bytes, items: seq<Item>)
    requires AllSent(items) && IsMessage(b, items)
    ensures |EncodeAll(items)| < |b| || EncodeAll(items) == b
    decreases |items|
  {
    hide IsField, EncodeItem, IsMessage, EncodeAll, AllSent, ClipItem, WellTagged;
    if items == [] {
      NothingSent(b);
    } else {
      FirstSent(items);
      var n := FirstField(b, items);
      FieldShortest(b[..n], items[0]);
      EncodeAllShortest(b[n..], items[1..]);
      assert b == b[..n] + b[n..];
    }
  }

  lemma EncodeAllFirst(it: Item, items: seq<Item>)
    ensures AllSent([it] + items) <==> AllSent([it]) && AllSent(items)
    ensures AllSent([it] + items) ==> EncodeAll([it] + items) == EncodeItem(it) + EncodeAll(items)
  {
    assert ([it] + items)[1..] == items;
    hide EncodeItem;
  }

  lemma {:induction false} EncodeAllSum(x: seq<Item>, y: seq<Item>)
    requires AllSent(x) && AllSent(y)
    ensures AllSent(x + y) && EncodeAll(x + y) == EncodeAll(x) + EncodeAll(y)
  {
    if x == [] {
      assert x + y == y;
    } else {
      hide EncodeItem, EncodeAll, AllSent;
      var first, rest := x[0], x[1..];
      assert x == [first] + rest && x + y == [first] + (rest + y);
      EncodeAllFirst(first, rest);
      EncodeAllSum(rest, y);
      EncodeAllFirst(first, rest + y);
      Associate(EncodeItem(first), EncodeAll(rest), EncodeAll(y));
    }
  }

  lemma SentEncoded(it: Item)
    requires WellTagged(it)
    ensures AllSent(Sent(it)) && EncodeAll(Sent(it)) == EncodeUnlessOmitted(it)
  {
    if !Omitted(it) {
      assert Sent(it)[1..] == [];
      assert EncodeItem(ClipItem(it)) + [] == EncodeItem(it);
    }
  }

  lemma SentAfter(x: seq<Item>, it: Item)
    requires AllSent(x) && WellTagged(it)
    ensures AllSent(x + Sent(it)) && EncodeAll(x + Sent(it)) == EncodeAll(x) + EncodeUnlessOmitted(it)
  {
    SentEncoded(it);
    EncodeAllSum(x, Sent(it));
  }

  lemma TimingEncoded(p: Params)
    ensures AllSent(TimingItems(p)) && EncodeAll(TimingItems(p)) == EncodeTiming(p)
  {
    hide EncodeUnlessOmitted, EncodeAll, Sent, AllSent;
    var it1, it2 := IntItem(1, p.protocolVersion), IntItem(2, p.duration);
    var it3, it4 := IntItem(3, p.interval), IntItem(4, p.intervalOffset);
    SentEncoded(it1);
    SentAfter(Sent(it1), it2);
    SentAfter(Sent(it1) + Sent(it2), it3);
    SentAfter(Sent(it1) + Sent(it2) + Sent(it3), it4);
  }

  lemma FormatEncoded(p: Params)
    ensures AllSent(FormatItems(p)) && EncodeAll(FormatItems(p)) == EncodeFormat(p)
  {
    hide EncodeUnlessOmitted, EncodeAll, Sent, AllSent;
    var it1, it2 := IntItem(5, p.length), IntItem(6, p.receivedStats);
    var it3, it4 := IntItem(7, p.stampAt), IntItem(8, p.tripMode);
    SentEncoded(it1);
    SentAfter(Sent(it1), it2);
    SentAfter(Sent(it1) + Sent(it2), it3);
    SentAfter(Sent(it1) + Sent(it2) + Sent(it3), it4);
  }

  lemma GroupEncoded(p: Params)
    ensures AllSent(GroupItems(p)) && EncodeAll(GroupItems(p)) == EncodeGroup(p)
  {
    hide EncodeUnlessOmitted, EncodeAll, Sent, AllSent;
    var it1, it2, it3 := IntItem(9, p.multiply), StringItem(10, p.group), IntItem(11, p.clock);
    SentEncoded(it1);
    SentAfter(Sent(it1), it2);
    SentAfter(Sent(it1) + Sent(it2), it3);
  }

  lemma MarkingEncoded(p: Params)
    ensures AllSent(MarkingItems(p)) && EncodeAll(MarkingItems(p)) == EncodeMarking(p)
  {
    hide EncodeUnlessOmitted, EncodeAll, Sent, AllSent;
    SentEncoded(IntItem(12, p.dscp));
    SentAfter(Sent(IntItem(12, p.dscp)), StringItem(13, p.serverFill));
  }

  lemma ItemsEncoded(p: Params)
    ensures AllSent(ItemsOf(p)) && EncodeAll(ItemsOf(p)) == Encode(p)
  {
    hide EncodeAll, AllSent, TimingItems, FormatItems, GroupItems, MarkingItems;
    hide EncodeTiming, EncodeFormat, EncodeGroup, EncodeMarking;
    var t, f, g, m := TimingItems(p), FormatItems(p), GroupItems(p), MarkingItems(p);
    TimingEncoded(p);
    FormatEncoded(p);
    GroupEncoded(p);
    MarkingEncoded(p);
    EncodeAllSum(t, f);
    EncodeAllSum(t + f, g);
    EncodeAllSum(t + f + g, m);
  }

  /** Encoded parameters are a message of their fields: the shortest, and the only one as short. */
  lemma EncodeExactly(p: Params)
    ensures IsMessage(Encode(p), ItemsOf(p))
    ensures forall b :: IsMessage(b, ItemsOf(p)) ==> |Encode(p)| < |b| || Encode(p) == b
  {
    hide EncodeAll, AllSent, IsMessage, ItemsOf, Encode;
    ItemsEncoded(p);
    EncodeAllMeans(ItemsOf(p));
    forall b | IsMessage(b, ItemsOf(p)) ensures |Encode(p)| < |b| || Encode(p) == b {
      EncodeAllShortest(b, ItemsOf(p));
    }
  }

  /** `Params.bytes`. The buffer is long enough for parameters in the ranges of `EncodingFits`. */
  method Bytes(p: Params) returns (encoded: bytes)
    requires |Encode(p)| <= PARAMS_MAX_LEN
    ensures encoded == Encode(p)
    ensures IsMessage(encoded, ItemsOf(p))
    ensures forall b :: IsMessage(b, ItemsOf(p)) ==> |encoded| < |b| || encoded == b
  {
    hide EncodeTiming, EncodeFormat, EncodeGroup, EncodeMarking, IsMessage, ItemsOf;
    EncodeExactly(p);
    var b := new byte[PARAMS_MAX_LEN];
    var pos := PutTiming(b, 0, p);
    pos := PutFormat(b, pos, p);
    pos := PutGroup(b, pos, p);
    pos := PutMarking(b, pos, p);
    return b[..pos];
  }
}
