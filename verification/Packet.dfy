/** Packets: a header of optional fields, and a payload. */
module Packets {
  import opened Fbufs
  import opened Layout
  import opened Numbers
  import opened Times

  const F_MAGIC := 0
  const F_FLAGS := 1
  const F_HMAC := 2
  const F_CONN_TOKEN := 3
  const F_SEQNO := 4
  const F_RCOUNT := 5
  const F_RWINDOW := 6
  const F_RWALL := 7
  const F_RMONO := 8
  const F_MWALL := 9
  const F_MMONO := 10
  const F_SWALL := 11
  const F_SMONO := 12

  const FL_OPEN := 1
  const FL_REPLY := 2
  const FL_CLOSE := 4
  const FL_HMAC := 8
  const FL_ALL := 15

  const MAX_HEADER_LEN := 92

  function Magic(): bytes { [0x14, 0xa7, 0x5b] }

  function Caps(): seq<nat> { [3, 1, 16, 8, 4, 4, 8, 8, 8, 8, 8, 8, 8] }

  lemma MagicLength()
    ensures |Magic()| == 3
  {
  }

  lemma CapFacts()
    ensures |Caps()| == 13 && CapSum(Caps(), 13) == MAX_HEADER_LEN
    ensures Caps()[0] == 3 && Caps()[1] == 1 && Caps()[2] == 16 && Caps()[3] == 8 && Caps()[4] == 4 && Caps()[5] == 4
    ensures forall f :: 6 <= f < 13 ==> Caps()[f] == 8
  {
    assert CapSum(Caps(), 3) == 20;
    assert CapSum(Caps(), 6) == 36;
    assert CapSum(Caps(), 9) == 60;
    assert CapSum(Caps(), 12) == 84;
  }

  /** A message digest. The keyed hash itself is any function. */
  type Digest = d: bytes | |d| == 16 witness [0, 0, 0, 0, 0, 0, 0, 0, 0, 0, 0, 0, 0, 0, 0, 0]

  type Hash = bytes -> Digest

  function Zeros(n: nat): (z: bytes)
    ensures |z| == n && forall i :: 0 <= i < n ==> z[i] == 0
  {
    seq(n, _ => 0)
  }

  // Header

  datatype Stamp = Stamp(wall: Option<i64>, mono: Option<i64>) {
    predicate IsSet() { wall.Some? || mono.Some? }
  }

  datatype Header = Header(
    magic: bytes, flags: byte, mac: bytes, token: Option<u64>, seqno: Option<u32>,
    count: Option<u32>, window: Option<u64>, receive: Stamp, mid: Stamp, send: Stamp)

  /** `binary.LittleEndian`'s readers, of as many bytes as there are. */
  function Uint64(b: bytes): u64 { GetLE(b) % 0x1_0000_0000_0000_0000 }

  function Uint32(b: bytes): u32 { GetLE(b) % 0x1_0000_0000 }

  function Int64(b: bytes): i64 { ToI64(Uint64(b)) }

  lemma PutGet64(v: u64)
    ensures Uint64(PutLE(v, 8)) == v
  {
    BaseWidths();
    GetPutLE(v, 8);
  }

  lemma PutGet32(v: u32)
    ensures Uint32(PutLE(v, 4)) == v
  {
    BaseWidths();
    GetPutLE(v, 4);
  }

  lemma PutGetSigned(v: i64)
    ensures Int64(PutLE(ToU64(v), 8)) == v
  {
    PutGet64(ToU64(v));
  }

  function Parse64(b: bytes): Option<u64> { if b == [] then None else Some(Uint64(b)) }

  function Parse32(b: bytes): Option<u32> { if b == [] then None else Some(Uint32(b)) }

  function ParseSigned(b: bytes): Option<i64> { if b == [] then None else Some(Int64(b)) }

  /** The header whose fields have the given bytes. */
  function Parse(vs: seq<bytes>): Header
    requires |vs| == 13
  {
    Header(vs[F_MAGIC], if vs[F_FLAGS] == [] then 0 else vs[F_FLAGS][0], vs[F_HMAC],
           Parse64(vs[F_CONN_TOKEN]), Parse32(vs[F_SEQNO]), Parse32(vs[F_RCOUNT]), Parse64(vs[F_RWINDOW]),
           Stamp(ParseSigned(vs[F_RWALL]), ParseSigned(vs[F_RMONO])),
           Stamp(ParseSigned(vs[F_MWALL]), ParseSigned(vs[F_MMONO])),
           Stamp(ParseSigned(vs[F_SWALL]), ParseSigned(vs[F_SMONO])))
  }

  /** `h` with the stamp field `f` set. */
  function WithStamp(h: Header, f: nat, v: i64): Header {
    match f
    case 7 => h.(receive := h.receive.(wall := Some(v)))
    case 8 => h.(receive := h.receive.(mono := Some(v)))
    case 9 => h.(mid := h.mid.(wall := Some(v)))
    case 10 => h.(mid := h.mid.(mono := Some(v)))
    case 11 => h.(send := h.send.(wall := Some(v)))
    case 12 => h.(send := h.send.(mono := Some(v)))
    case _ => h
  }

  /** What `tset` does to the header, and to the set of fields that are set. */
  function WithTime(h: Header, t: Time, wf: nat, mf: nat): Header {
    var h := if t.wall != 0 then WithStamp(h, wf, t.wall) else h;
    if t.mono != 0 then WithStamp(h, mf, t.mono) else h
  }

  function OnWithTime(on: set<nat>, t: Time, wf: nat, mf: nat): set<nat> {
    var on := if t.wall != 0 then on + {wf} else on;
    if t.mono != 0 then on + {mf} else on
  }

  /** What `setTimestamp` does to them. */
  function Stamped(h: Header, at: StampAt, ts: Timestamp): Header {
    if at == AT_MIDPOINT then WithTime(h, ts.receive, F_MWALL, F_MMONO)
    else
      var h := if Has(at, AT_RECEIVE) then WithTime(h, ts.receive, F_RWALL, F_RMONO) else h;
      if Has(at, AT_SEND) then WithTime(h, ts.send, F_SWALL, F_SMONO) else h
  }

  /** The fields that `setTimestamp` sets, in order. */
  function StampList(at: StampAt, ts: Timestamp): seq<nat> {
    if at == AT_MIDPOINT then TimeList(ts.receive, F_MWALL, F_MMONO)
    else
      (if Has(at, AT_RECEIVE) then TimeList(ts.receive, F_RWALL, F_RMONO) else []) +
      (if Has(at, AT_SEND) then TimeList(ts.send, F_SWALL, F_SMONO) else [])
  }

  function TimeList(t: Time, wf: nat, mf: nat): seq<nat> { ClockList(wf, t.wall) + ClockList(mf, t.mono) }

  function ClockList(f: nat, v: i64): seq<nat> { if v != 0 then [f] else [] }

  function OnStamped(on: set<nat>, at: StampAt, ts: Timestamp): set<nat> {
    if at == AT_MIDPOINT then OnWithTime(on, ts.receive, F_MWALL, F_MMONO)
    else
      var on := if Has(at, AT_RECEIVE) then OnWithTime(on, ts.receive, F_RWALL, F_RMONO) else on;
      if Has(at, AT_SEND) then OnWithTime(on, ts.send, F_SWALL, F_SMONO) else on
  }

  lemma ParseStamp(vs: seq<bytes>, f: nat, v: i64)
    requires |vs| == 13 && 7 <= f < 13
    ensures Parse(vs[f := PutLE(ToU64(v), 8)]) == WithStamp(Parse(vs), f, v)
  {
    PutGetSigned(v);
    hide Int64, PutLE;
  }

  lemma ParseToken(vs: seq<bytes>, v: u64)
    requires |vs| == 13
    ensures Parse(vs[F_CONN_TOKEN := PutLE(v, 8)]) == Parse(vs).(token := Some(v))
    ensures Parse(vs[F_RWINDOW := PutLE(v, 8)]) == Parse(vs).(window := Some(v))
  {
    PutGet64(v);
    hide Uint64, PutLE;
  }

  lemma ParseSeqno(vs: seq<bytes>, v: u32)
    requires |vs| == 13
    ensures Parse(vs[F_SEQNO := PutLE(v, 4)]) == Parse(vs).(seqno := Some(v))
    ensures Parse(vs[F_RCOUNT := PutLE(v, 4)]) == Parse(vs).(count := Some(v))
  {
    PutGet32(v);
    hide Uint32, PutLE;
  }

  lemma ParseStart(vs: seq<bytes>, magic: bytes, flags: byte, mac: bytes)
    requires |vs| == 13
    ensures Parse(vs[F_MAGIC := magic]) == Parse(vs).(magic := magic)
    ensures Parse(vs[F_FLAGS := [flags]]) == Parse(vs).(flags := flags)
    ensures Parse(vs[F_HMAC := mac]) == Parse(vs).(mac := mac)
  {
  }

  function StampAtOf(h: Header): StampAt {
    if h.mid.IsSet() then AT_MIDPOINT
    else (if h.receive.IsSet() then AT_RECEIVE else 0) + (if h.send.IsSet() then AT_SEND else 0)
  }

  /** Which clocks any stamp has: 0 if there is no stamp. */
  function ClockOf(h: Header): nat {
    (if h.receive.wall.Some? || h.send.wall.Some? || h.mid.wall.Some? then WALL else 0) +
    (if h.receive.mono.Some? || h.send.mono.Some? || h.mid.mono.Some? then MONOTONIC else 0)
  }

  /** `t` with the clocks that `s` has. */
  function Overlay(t: Time, s: Stamp): Time {
    Time(if s.wall.Some? then s.wall.value else t.wall, if s.mono.Some? then s.mono.value else t.mono)
  }

  function TimestampOf(h: Header): Timestamp {
    Timestamp(Overlay(Overlay(ZERO_TIME, h.receive), h.mid), Overlay(Overlay(ZERO_TIME, h.mid), h.send))
  }

  /** `f` and `g`, each if wanted. */
  function FieldsIf(a: bool, f: int, b: bool, g: int): seq<int> {
    (if a then [f] else []) + (if b then [g] else [])
  }

  predicate Ascending(l: seq<int>, low: int, high: int) {
    (forall i :: 0 <= i < |l| ==> low <= l[i] < high) && (forall i :: 0 < i < |l| ==> l[i - 1] < l[i])
  }

  lemma AscendingPair(a: bool, f: int, b: bool, g: int)
    requires f < g
    ensures Ascending(FieldsIf(a, f, b, g), f, g + 1)
  {
  }

  lemma AscendingAppend(l: seq<int>, m: seq<int>, low: int, middle: int, high: int)
    requires Ascending(l, low, middle) && Ascending(m, middle, high) && low <= middle <= high
    ensures Ascending(l + m, low, high)
  {
  }

  lemma AscendingSelected(l: seq<int>, n: nat)
    requires Ascending(l, 0, n)
    ensures Selected(l, 0, n) == SetOf(l, n)
  {
    SelectedIncreasing(l, 0, n);
    hide Selected;
    assert forall f :: f in Selected(l, 0, n) <==> f in SetOf(l, n);
  }

  function SetOf(l: seq<int>, n: nat): set<nat> { set f: nat | f < n && f in l }

  function StatsFieldList(rs: ReceivedStats): seq<int> {
    FieldsIf(Has(rs, COUNT), F_RCOUNT, Has(rs, WINDOW), F_RWINDOW)
  }

  function StampFieldList(at: StampAt, c: ClockParam): seq<int> {
    ClockFields(Has(at, AT_RECEIVE), c, F_RWALL, F_RMONO) +
    ClockFields(Has(at, AT_MIDPOINT), c, F_MWALL, F_MMONO) +
    ClockFields(Has(at, AT_SEND), c, F_SWALL, F_SMONO)
  }

  function ClockFields(stamped: bool, c: ClockParam, wf: nat, mf: nat): seq<int> {
    FieldsIf(stamped && Has(c, WALL), wf, stamped && Has(c, MONOTONIC), mf)
  }

  /** The fields that `addReceivedStatsFields` and `addTimestampFields` add. */
  function StatsFields(rs: ReceivedStats): set<nat> { SetOf(StatsFieldList(rs), 13) }

  function StampFields(at: StampAt, c: ClockParam): set<nat> { SetOf(StampFieldList(at, c), 13) }

  lemma StatsFieldsSelected(rs: ReceivedStats)
    ensures Selected(StatsFieldList(rs), 0, 13) == StatsFields(rs)
  {
    AscendingPair(Has(rs, COUNT), F_RCOUNT, Has(rs, WINDOW), F_RWINDOW);
    AscendingSelected(StatsFieldList(rs), 13);
  }

  lemma StampFieldsSelected(at: StampAt, c: ClockParam)
    ensures Selected(StampFieldList(at, c), 0, 13) == StampFields(at, c)
  {
    hide Has, FieldsIf, Selected, SetOf;
    ClockFieldsAscend(Has(at, AT_RECEIVE), c, 7);
    ClockFieldsAscend(Has(at, AT_MIDPOINT), c, 9);
    ClockFieldsAscend(Has(at, AT_SEND), c, 11);
    var r, m := ClockFields(Has(at, AT_RECEIVE), c, 7, 8), ClockFields(Has(at, AT_MIDPOINT), c, 9, 10);
    AscendingAppend(r, m, 7, 9, 11);
    AscendingAppend(r + m, ClockFields(Has(at, AT_SEND), c, 11, 12), 7, 11, 13);
    AscendingSelected(StampFieldList(at, c), 13);
  }

  lemma ClockFieldsAscend(stamped: bool, c: ClockParam, wf: nat)
    ensures Ascending(ClockFields(stamped, c, wf, wf + 1), wf, wf + 2)
  {
    AscendingPair(stamped && Has(c, WALL), wf, stamped && Has(c, MONOTONIC), wf + 1);
  }

  // Flags

  predicate IsFlag(flag: nat) { flag == FL_OPEN || flag == FL_REPLY || flag == FL_CLOSE || flag == FL_HMAC }

  predicate HasFlag(v: nat, flag: nat)
    requires IsFlag(flag)
  {
    match flag
    case 1 => v % 2 == 1
    case 2 => v / 2 % 2 == 1
    case 4 => v / 2 / 2 % 2 == 1
    case _ => v / 2 / 2 / 2 % 2 == 1
  }

  /** `v` with its bit 0 set, or with `k` added above it. */
  lemma Halves(v: nat, k: nat)
    ensures (v + 2 * k) / 2 == v / 2 + k && (v + 2 * k) % 2 == v % 2
    ensures v % 2 == 0 ==> (v + 1) / 2 == v / 2 && (v + 1) % 2 == 1
  {
  }

  lemma AddHalves(v: nat, flag: nat)
    requires IsFlag(flag) && !HasFlag(v, flag)
    ensures (v + flag) % 2 == if flag == 1 then 1 else v % 2
    ensures (v + flag) / 2 % 2 == if flag == 2 then 1 else v / 2 % 2
    ensures (v + flag) / 2 / 2 % 2 == if flag == 4 then 1 else v / 2 / 2 % 2
    ensures (v + flag) / 2 / 2 / 2 % 2 == if flag == 8 then 1 else v / 2 / 2 / 2 % 2
  {
    if flag == 1 {
      Halves(v, 0);
    } else if flag == 2 {
      Halves(v, 1);
      Halves(v / 2, 0);
    } else if flag == 4 {
      Halves(v, 2);
      Halves(v / 2, 1);
      Halves(v / 2 / 2, 0);
    } else {
      Halves(v, 4);
      Halves(v / 2, 2);
      Halves(v / 2 / 2, 1);
      Halves(v / 2 / 2 / 2, 0);
    }
  }

  lemma SubtractHalves(v: nat, flag: nat)
    requires IsFlag(flag) && HasFlag(v, flag) && v >= flag
    ensures !HasFlag(v - flag, flag)
  {
    var w := v - flag;
    if HasFlag(w, flag) {
      if flag == 2 {
        Halves(w, 1);
      } else if flag == 4 {
        Halves(w, 2);
        Halves(w / 2, 1);
      } else if flag == 8 {
        Halves(w, 4);
        Halves(w / 2, 2);
        Halves(w / 2 / 2, 1);
      }
    }
  }

  /** Adding a flag that is not there is setting its bit, and no other. */
  lemma AddFlag(v: nat, flag: nat, other: nat)
    requires IsFlag(flag) && IsFlag(other) && !HasFlag(v, flag)
    ensures HasFlag(v + flag, other) == (other == flag || HasFlag(v, other))
    ensures v <= FL_ALL ==> v + flag <= FL_ALL
    ensures v < 0x100 ==> v + flag < 0x100
  {
    AddHalves(v, flag);
  }

  /** Subtracting a flag that is there leaves it out. */
  lemma SubtractFlag(v: nat, flag: nat)
    requires IsFlag(flag) && HasFlag(v, flag)
    ensures v >= flag && !HasFlag(v - flag, flag)
  {
    assert v >= flag;
    SubtractHalves(v, flag);
  }

  function SetFlag(v: byte, flag: nat): (r: byte)
    requires IsFlag(flag)
  {
    if HasFlag(v, flag) then v
    else
      AddFlag(v, flag, flag);
      v + flag
  }

  function ClearFlag(v: byte, flag: nat): (r: byte)
    requires IsFlag(flag)
  {
    if HasFlag(v, flag) then
      SubtractFlag(v, flag);
      v - flag
    else v
  }

  /** Setting and clearing one flag leaves the others alone. */
  lemma FlagBits(v: byte, flag: nat, other: nat)
    requires IsFlag(flag) && IsFlag(other)
    ensures HasFlag(SetFlag(v, flag), other) == (other == flag || HasFlag(v, other))
    ensures HasFlag(ClearFlag(v, flag), other) == (other != flag && HasFlag(v, other))
    ensures v <= FL_ALL ==> SetFlag(v, flag) <= FL_ALL
  {
    if HasFlag(v, flag) {
      SubtractFlag(v, flag);
      AddFlag(v - flag, flag, other);
    } else {
      AddFlag(v, flag, other);
    }
  }

  // Packets

  datatype PacketError =
    | FieldsTooLong
    | BadMagic
    | InvalidFlagBitsSet
    | NonexclusiveMidpointTStamp
    | InconsistentClocks
    | NoHMAC
    | BadHMAC
    | UnexpectedHMAC

  const MAC_START := 4
  const MAC_END := 20

  /** `c` with the HMAC field zeroed. */
  function Blanked(c: bytes): bytes
    requires |c| >= MAC_END
  {
    Written(c, MAC_START, Zeros(16))
  }

  predicate Authentic(hash: Hash, c: bytes) {
    |c| >= MAC_END && c[MAC_START..MAC_END] == hash(Blanked(c))
  }

  /** What `validate` makes of stamps: a midpoint stands alone, and two stamps have the same clocks. */
  function StampError(h: Header): Option<PacketError> {
    if h.mid.IsSet() && (h.receive.IsSet() || h.send.IsSet()) then Some(NonexclusiveMidpointTStamp)
    else if h.receive.IsSet() && h.send.IsSet() && !SameClocks(h.receive, h.send) then Some(InconsistentClocks)
    else None
  }

  predicate SameClocks(s: Stamp, t: Stamp) { s.wall.Some? == t.wall.Some? && s.mono.Some? == t.mono.Some? }

  function HMACError(hmac: Option<Hash>, c: bytes): Option<PacketError>
    requires |c| >= MAC_START
  {
    if hmac.Some? && !HasFlag(c[3], FL_HMAC) then Some(NoHMAC)
    else if hmac.Some? && !Authentic(hmac.value, c) then Some(BadHMAC)
    else if hmac.None? && HasFlag(c[3], FL_HMAC) then Some(UnexpectedHMAC)
    else None
  }

  /** What `validate` makes of a packet with header `h` and contents `c`. */
  function ContentError(hmac: Option<Hash>, h: Header, c: bytes): Option<PacketError>
    requires |c| >= MAC_START
  {
    if c[..3] != Magic() then Some(BadMagic)
    else if c[3] > FL_ALL then Some(InvalidFlagBitsSet)
    else if StampError(h).Some? then StampError(h)
    else HMACError(hmac, c)
  }

  /** What a receiver makes of the bytes of a packet. No stamp has a field when it is validated. */
  function ReadError(hmac: Option<Hash>, c: bytes): (e: Option<PacketError>)
    ensures e.None? ==> |c| >= if hmac.Some? then MAC_END else MAC_START
    ensures e != Some(NonexclusiveMidpointTStamp) && e != Some(InconsistentClocks)
  {
    if |c| < (if hmac.Some? then MAC_END else MAC_START) then Some(FieldsTooLong)
    else if c[..3] != Magic() then Some(BadMagic)
    else if c[3] > FL_ALL then Some(InvalidFlagBitsSet)
    else HMACError(hmac, c)
  }

  /** Zeroing the field again takes a digest out. */
  lemma BlankedAgain(d: bytes, n: nat, mac: bytes)
    requires MAC_END <= n <= |d| && d[MAC_START..MAC_END] == Zeros(16) && |mac| == 16
    ensures var c := Written(d, MAC_START, mac)[..n];
            c[MAC_START..MAC_END] == mac && Blanked(c) == d[..n]
  {
    var c := Written(d, MAC_START, mac)[..n];
    WrittenPieces(d, MAC_START, mac);
    assert c[MAC_START..MAC_END] == Written(d, MAC_START, mac)[MAC_START..MAC_START + |mac|];
    assert c[..MAC_START] == d[..MAC_START];
    assert c[MAC_END..] == d[MAC_END..n];
    assert d[..n] == d[..MAC_START] + d[MAC_START..MAC_END] + d[MAC_END..n];
  }

  lemma SignedIsAuthentic(hash: Hash, d: bytes, n: nat)
    requires MAC_END <= n <= |d| && d[MAC_START..MAC_END] == Zeros(16)
    ensures Authentic(hash, Written(d, MAC_START, hash(d[..n]))[..n])
  {
    BlankedAgain(d, n, hash(d[..n]));
  }

  /** Where the first fields are. */
  lemma StartOffsets(on: set<nat>)
    requires {F_MAGIC, F_FLAGS} <= on
    ensures |Caps()| == 13 && Offset(Caps(), on, 0) == 0 && Offset(Caps(), on, 1) == 3
    ensures Offset(Caps(), on, 2) == MAC_START
    ensures Offset(Caps(), on, 3) == if F_HMAC in on then MAC_END else MAC_START
  {
    CapFacts();
    assert F_MAGIC in on && F_FLAGS in on;
    assert Offset(Caps(), on, 1) == Offset(Caps(), on, 0) + Width(Caps(), on, 0);
    assert Offset(Caps(), on, 2) == Offset(Caps(), on, 1) + Width(Caps(), on, 1);
    assert Offset(Caps(), on, 3) == Offset(Caps(), on, 2) + Width(Caps(), on, 2);
  }

  /** The fields of a new packet. */
  function InitFields(hmac: Option<Hash>): seq<int> {
    if hmac.Some? then [F_MAGIC, F_FLAGS, F_HMAC] else [F_MAGIC, F_FLAGS]
  }

  function InitSet(hmac: Option<Hash>): set<nat> {
    if hmac.Some? then {F_MAGIC, F_FLAGS, F_HMAC} else {F_MAGIC, F_FLAGS}
  }

  lemma InitSelected(hmac: Option<Hash>)
    ensures Selected(InitFields(hmac), 0, 13) == InitSet(hmac)
  {
    SelectedIncreasing(InitFields(hmac), 0, 13);
  }

  class Packet {
    const fb: Fbuf
    const hmac: Option<Hash>

    lemma ShapedMeans()
      requires Shaped()
      ensures fb.Valid() && fb.caps == Caps() && |Caps()| == 13 && CapSum(Caps(), 13) <= fb.data.Length
      ensures fb.Vals() == Values(Caps(), fb.on, fb.data[..]) && Head() == Parse(fb.Vals())
    {
      CapFacts();
    }

    lemma ValidMeans()
      requires Valid()
      ensures Shaped() && fb.Valid() && fb.caps == Caps() && fb.Fits() && fb.Flen() <= fb.blen <= fb.data.Length
      ensures fb.Contents() == fb.data[..][..fb.blen] && fb.Flen() == End(fb.caps, fb.on)
      ensures F_MAGIC in fb.on && F_FLAGS in fb.on
    {
    }

    /** `newPacket` */
    constructor (tlen: nat, cap: nat, hmac: Option<Hash>)
      requires tlen <= cap || tlen <= MAX_HEADER_LEN
      ensures Valid() && this.hmac == hmac && fresh(fb) && fresh(fb.data)
      ensures fb.data.Length == if cap < MAX_HEADER_LEN then MAX_HEADER_LEN else cap
      ensures fb.on == InitSet(hmac) && fb.tlen == fb.blen == fb.Flen()
      ensures Head().magic == Magic() && Head().flags == 0
    {
      CapFacts();
      var b := new Fbuf(Caps(), tlen, if cap < MAX_HEADER_LEN then MAX_HEADER_LEN else cap);
      this.hmac := hmac;
      fb := b;
      new;
      Init();
    }

    method Init()
      requires fb.Valid() && fb.caps == Caps() && forall k :: 0 <= k < fb.data.Length ==> fb.data[k] == 0
      modifies fb, fb.data
      ensures Valid() && fb.on == InitSet(hmac) && fb.tlen == fb.blen == fb.Flen()
      ensures Head().magic == Magic() && Head().flags == 0
    {
      CapFacts();
      InitSelected(hmac);
      hide CapSum, FieldOf, Offset, Selected;
      var err := fb.SetFields(InitFields(hmac), true);
      FlagsValue();
      PutMagic();
    }

    method PutMagic()
      requires Valid()
      modifies fb.data
      ensures Valid() && Head() == old(Head()).(magic := Magic())
    {
      hide *;
      ValidMeans();
      MagicLength();
      ShapedMeans();
      StartCaps();
      ParseStart(fb.Vals(), Magic(), 0, []);
      fb.Overwrite(F_MAGIC, Magic());
      ShapedMeans();
    }

    lemma FieldWidths()
      requires fb.Valid() && fb.caps == Caps()
      ensures |fb.caps| == |fb.Vals()| == 13
      ensures forall i :: 0 <= i < 13 ==> |fb.Vals()[i]| == if i in fb.on then fb.caps[i] else 0
    {
      CapFacts();
      ValuesFit(fb.caps, fb.on, fb.data[..]);
    }

    lemma FlagsValue()
      requires fb.Valid() && fb.caps == Caps() && {F_MAGIC, F_FLAGS} <= fb.on
      ensures |fb.Vals()| == 13 && fb.Vals()[F_FLAGS] == [fb.data[3]] && Head().flags == fb.data[3]
    {
      CapFacts();
      StartOffsets(fb.on);
      ValueSlice(fb.caps, fb.on, fb.data[..], F_FLAGS);
      hide Caps, CapSum, Offset, FieldOf, ValueAt, Fbuf.Valid;
      assert fb.Vals()[F_FLAGS] == fb.data[..][3..4];
    }

    ghost predicate Shaped()
      reads fb
    {
      fb.Valid() && fb.caps == Caps() && {F_MAGIC, F_FLAGS} <= fb.on
    }

    ghost predicate Valid()
      reads fb
    {
      Shaped() && fb.Fits()
    }

    ghost function Head(): Header
      reads fb, fb.data
      requires fb.Valid() && fb.caps == Caps()
    {
      CapFacts();
      Parse(fb.Vals())
    }

    lemma RoomMeans(f: nat)
      requires Valid() && fb.HasRoom(f)
      ensures f < 13 && |fb.caps| == 13
      ensures f == F_SEQNO || f == F_RCOUNT ==> fb.caps[f] == 4
      ensures f == F_CONN_TOKEN || F_RWINDOW <= f ==> fb.caps[f] == 8
      ensures f == F_HMAC ==> fb.caps[f] == 16
    {
      CapFacts();
    }

    lemma StartCaps()
      requires Valid()
      ensures |fb.caps| == 13 && F_MAGIC < F_FLAGS < F_HMAC < 13
      ensures fb.caps[F_MAGIC] == 3 && fb.caps[F_FLAGS] == 1 && fb.caps[F_HMAC] == 16
    {
      CapFacts();
    }

    // Setters

    method SetConnToken(token: u64)
      requires Valid() && fb.HasRoom(F_CONN_TOKEN)
      modifies fb`fields, fb`on, fb`blen, fb.data
      ensures Valid() && Head() == old(Head()).(token := Some(token))
      ensures fb.on == old(fb.on) + {F_CONN_TOKEN} && fb.blen == old(fb.BlenWith(F_CONN_TOKEN))
      ensures fb.Payload() == old(fb.PayloadWith(F_CONN_TOKEN))
    {
      RoomMeans(F_CONN_TOKEN);
      ParseToken(fb.Vals(), token);
      fb.Set(F_CONN_TOKEN, PutLE(token, 8));
    }

    method SetSeqno(seqno: u32)
      requires Valid() && fb.HasRoom(F_SEQNO)
      modifies fb`fields, fb`on, fb`blen, fb.data
      ensures Valid() && Head() == old(Head()).(seqno := Some(seqno))
      ensures fb.on == old(fb.on) + {F_SEQNO} && fb.blen == old(fb.BlenWith(F_SEQNO))
      ensures fb.Payload() == old(fb.PayloadWith(F_SEQNO))
    {
      RoomMeans(F_SEQNO);
      ParseSeqno(fb.Vals(), seqno);
      fb.Set(F_SEQNO, PutLE(seqno, 4));
    }

    method SetReceivedCount(n: u32)
      requires Valid() && fb.HasRoom(F_RCOUNT)
      modifies fb`fields, fb`on, fb`blen, fb.data
      ensures Valid() && Head() == old(Head()).(count := Some(n))
      ensures fb.on == old(fb.on) + {F_RCOUNT} && fb.blen == old(fb.BlenWith(F_RCOUNT))
      ensures fb.Payload() == old(fb.PayloadWith(F_RCOUNT))
    {
      RoomMeans(F_RCOUNT);
      ParseSeqno(fb.Vals(), n);
      fb.Set(F_RCOUNT, PutLE(n, 4));
    }

    method SetReceivedWindow(w: u64)
      requires Valid() && fb.HasRoom(F_RWINDOW)
      modifies fb`fields, fb`on, fb`blen, fb.data
      ensures Valid() && Head() == old(Head()).(window := Some(w))
      ensures fb.on == old(fb.on) + {F_RWINDOW} && fb.blen == old(fb.BlenWith(F_RWINDOW))
      ensures fb.Payload() == old(fb.PayloadWith(F_RWINDOW))
    {
      RoomMeans(F_RWINDOW);
      ParseToken(fb.Vals(), w);
      fb.Set(F_RWINDOW, PutLE(w, 8));
    }

    /** `wallToBytes(setTo(f))` and `monoToBytes(setTo(f))`. */
    method SetStampField(f: nat, v: i64)
      requires Valid() && 7 <= f && fb.HasRoom(f)
      modifies fb`fields, fb`on, fb`blen, fb.data
      ensures Valid() && Head() == WithStamp(old(Head()), f, v)
      ensures fb.on == old(fb.on) + {f} && fb.blen == old(fb.BlenWith(f))
      ensures fb.Payload() == old(fb.PayloadWith(f))
    {
      RoomMeans(f);
      ParseStamp(fb.Vals(), f, v);
      fb.Set(f, PutLE(ToU64(v), 8));
    }

    /** The flags field is always set. */
    method PutFlags(flags: byte)
      requires Valid()
      modifies fb.data
      ensures Valid() && Head() == old(Head()).(flags := flags) && fb.Payload() == old(fb.Payload())
    {
      hide *;
      ValidMeans();
      ShapedMeans();
      StartCaps();
      ParseStart(fb.Vals(), [], flags, []);
      fb.Overwrite(F_FLAGS, [flags]);
      ShapedMeans();
    }

    function Flags(): (flags: byte)
      reads fb, fb.data
      requires Shaped()
      ensures flags == Head().flags
    {
      FlagsValue();
      fb.Get(F_FLAGS)[0]
    }

    method SetFlagBits(flag: nat)
      requires Valid() && IsFlag(flag)
      modifies fb.data
      ensures Valid() && Head() == old(Head()).(flags := SetFlag(old(Head()).flags, flag))
      ensures fb.Payload() == old(fb.Payload())
    {
      PutFlags(SetFlag(Flags(), flag));
    }

    method ClearFlagBits(flag: nat)
      requires Valid() && IsFlag(flag)
      modifies fb.data
      ensures Valid() && Head() == old(Head()).(flags := ClearFlag(old(Head()).flags, flag))
      ensures fb.Payload() == old(fb.Payload())
    {
      PutFlags(ClearFlag(Flags(), flag));
    }

    // Stamps

    /** Which fields have a value. */
    lemma FieldsPresent()
      requires Shaped()
      ensures F_RCOUNT in fb.on <==> Head().count.Some?
      ensures F_RWINDOW in fb.on <==> Head().window.Some?
      ensures F_RWALL in fb.on <==> Head().receive.wall.Some?
      ensures F_RMONO in fb.on <==> Head().receive.mono.Some?
      ensures F_MWALL in fb.on <==> Head().mid.wall.Some?
      ensures F_MMONO in fb.on <==> Head().mid.mono.Some?
      ensures F_SWALL in fb.on <==> Head().send.wall.Some?
      ensures F_SMONO in fb.on <==> Head().send.mono.Some?
    {
      FieldWidths();
      CapFacts();
    }

    function HasReceiveStamp(): (r: bool)
      reads fb, fb.data
      requires Shaped()
      ensures r <==> Head().receive.IsSet()
    {
      CapFacts();
      FieldsPresent();
      fb.IsSet(F_RWALL) || fb.IsSet(F_RMONO)
    }

    function HasMidpointStamp(): (r: bool)
      reads fb, fb.data
      requires Shaped()
      ensures r <==> Head().mid.IsSet()
    {
      CapFacts();
      FieldsPresent();
      fb.IsSet(F_MWALL) || fb.IsSet(F_MMONO)
    }

    function HasSendStamp(): (r: bool)
      reads fb, fb.data
      requires Shaped()
      ensures r <==> Head().send.IsSet()
    {
      CapFacts();
      FieldsPresent();
      fb.IsSet(F_SWALL) || fb.IsSet(F_SMONO)
    }

    method StampedAt() returns (at: StampAt)
      requires Shaped()
      ensures at == StampAtOf(Head())
    {
      if HasMidpointStamp() {
        return AT_MIDPOINT;
      }
      at := 0;
      if HasReceiveStamp() {
        at := at + AT_RECEIVE;
      }
      if HasSendStamp() {
        at := at + AT_SEND;
      }
    }

    method StampClock() returns (c: nat)
      requires Shaped()
      ensures c == ClockOf(Head())
    {
      hide Caps, CapSum, Parse, FieldOf, Values, Offset;
      CapFacts();
      FieldsPresent();
      c := 0;
      if fb.IsSet(F_RWALL) || fb.IsSet(F_SWALL) || fb.IsSet(F_MWALL) {
        c := c + WALL;
      }
      if fb.IsSet(F_RMONO) || fb.IsSet(F_SMONO) || fb.IsSet(F_MMONO) {
        c := c + MONOTONIC;
      }
    }

    /** The stamp in fields `wf` and `mf`, on top of `t`. */
    function Tget(wf: nat, mf: nat, t: Time): (r: Time)
      reads fb, fb.data
      requires Shaped() && wf < 13 && mf < 13
      ensures r == Overlay(t, Stamp(ParseSigned(fb.Vals()[wf]), ParseSigned(fb.Vals()[mf])))
    {
      CapFacts();
      var wb, mb := fb.Get(wf), fb.Get(mf);
      Time(if |wb| > 0 then Int64(wb) else t.wall, if |mb| > 0 then Int64(mb) else t.mono)
    }

    method Stamps() returns (ts: Timestamp)
      requires Shaped()
      ensures ts == TimestampOf(Head())
    {
      var receive := Tget(F_RWALL, F_RMONO, ZERO_TIME);
      receive := Tget(F_MWALL, F_MMONO, receive);
      var send := Tget(F_MWALL, F_MMONO, ZERO_TIME);
      send := Tget(F_SWALL, F_SMONO, send);
      ts := Timestamp(receive, send);
    }

    /** The packet is just its fields, and grows by what is set. A new packet is tight, and so is any after
        `setLen(0)`. */
    ghost predicate Tight()
      reads fb
    {
      fb.tlen <= fb.blen == fb.Flen()
    }

    /** The fields of a tight packet never outgrow the buffer. */
    lemma TightRoom(f: nat)
      requires Valid() && Tight() && f < 13
      ensures fb.HasRoom(f) && fb.BlenWith(f) == End(fb.caps, fb.on + {f})
    {
      CapFacts();
      if f in fb.on {
        assert fb.on + {f} == fb.on;
      } else {
        RoomFor(fb.caps, fb.on, f, 13);
        OffsetWith(fb.caps, fb.on, f, 13);
      }
    }

    /** A tight packet has room for any fields. */
    lemma {:induction false} TightRoomAll(on: set<nat>, tlen: int, fs: seq<nat>)
      requires Valid() && tlen <= End(fb.caps, on) && forall k :: 0 <= k < |fs| ==> fs[k] < 13
      ensures RoomToSetAll(fb.caps, on, End(fb.caps, on), tlen, fb.data.Length, fs)
      decreases |fs|
    {
      CapFacts();
      if fs != [] {
        var f := fs[0];
        if f in on {
          assert on + {f} == on;
        } else {
          RoomFor(fb.caps, on, f, 13);
          OffsetWith(fb.caps, on, f, 13);
        }
        TightRoomAll(on + {f}, tlen, fs[1..]);
      }
    }

    /** Setting a field leaves a tight packet tight. */
    lemma TightAfter(on: set<nat>, blen: int, f: nat)
      requires Valid() && f < 13 && fb.tlen <= blen == End(fb.caps, on)
      ensures |fb.caps| == 13
      ensures BlenAfter(fb.caps, on, blen, fb.tlen, f) == End(fb.caps, on + {f}) >= blen
    {
      CapFacts();
      if f in on {
        assert on + {f} == on;
      } else {
        OffsetWith(fb.caps, on, f, 13);
      }
    }

    /** Sets stamp field `f`, unless the clock is zero. There is room for the fields of `rest` besides. */
    method SetClock(f: nat, v: i64, ghost rest: seq<nat>)
      requires Valid() && 7 <= f < 13 && fb.HasRoomAll(ClockList(f, v) + rest)
      modifies fb`fields, fb`on, fb`blen, fb.data
      ensures Valid() && fb.HasRoomAll(rest) && (old(Tight()) ==> Tight())
      ensures Head() == if v != 0 then WithStamp(old(Head()), f, v) else old(Head())
      ensures fb.on == if v != 0 then old(fb.on) + {f} else old(fb.on)
    {
      hide Caps, CapSum, Parse, FieldOf, WithStamp, Values, Offset, RoomToSetAll;
      assert v == 0 ==> ClockList(f, v) + rest == rest;
      if v != 0 {
        RoomForFirst(fb.caps, fb.on, fb.blen, fb.tlen, fb.data.Length, f, rest);
        SetFirst(f, v);
      }
    }

    method SetFirst(f: nat, v: i64)
      requires Valid() && 7 <= f < 13 && fb.HasRoom(f)
      modifies fb`fields, fb`on, fb`blen, fb.data
      ensures Valid() && (old(Tight()) ==> Tight()) && Head() == WithStamp(old(Head()), f, v)
      ensures fb.on == old(fb.on) + {f} && fb.blen == old(fb.BlenWith(f))
    {
      hide Caps, CapSum, Parse, FieldOf, WithStamp, Values, Offset, End, BlenAfter;
      if Tight() {
        TightAfter(fb.on, fb.blen, f);
      }
      SetStampField(f, v);
    }

    /** Sets the fields of the clocks that `t` has. */
    method Tset(t: Time, wf: nat, mf: nat, ghost rest: seq<nat>)
      requires Valid() && 7 <= wf < 13 && 7 <= mf < 13 && fb.HasRoomAll(TimeList(t, wf, mf) + rest)
      modifies fb`fields, fb`on, fb`blen, fb.data
      ensures Valid() && fb.HasRoomAll(rest) && (old(Tight()) ==> Tight())
      ensures Head() == WithTime(old(Head()), t, wf, mf)
      ensures fb.on == OnWithTime(old(fb.on), t, wf, mf)
    {
      hide Caps, CapSum, Parse, FieldOf, WithStamp, Offset, End, Values, RoomToSetAll, ClockList;
      assert TimeList(t, wf, mf) + rest == ClockList(wf, t.wall) + (ClockList(mf, t.mono) + rest);
      SetClock(wf, t.wall, ClockList(mf, t.mono) + rest);
      SetClock(mf, t.mono, rest);
    }

    method SetTimestamp(at: StampAt, ts: Timestamp)
      requires Valid() && fb.HasRoomAll(StampList(at, ts))
      modifies fb`fields, fb`on, fb`blen, fb.data
      ensures Valid() && Head() == Stamped(old(Head()), at, ts) && (old(Tight()) ==> Tight())
      ensures fb.on == OnStamped(old(fb.on), at, ts)
    {
      hide Caps, CapSum, Parse, FieldOf, WithTime, OnWithTime, Offset, End, Values, Has, RoomToSetAll, TimeList;
      if at == AT_MIDPOINT {
        assert StampList(at, ts) == TimeList(ts.receive, F_MWALL, F_MMONO) + [];
        Tset(ts.receive, F_MWALL, F_MMONO, []);
        return;
      }
      ghost var sendList := if Has(at, AT_SEND) then TimeList(ts.send, F_SWALL, F_SMONO) else [];
      if Has(at, AT_RECEIVE) {
        Tset(ts.receive, F_RWALL, F_RMONO, sendList);
      } else {
        assert StampList(at, ts) == sendList;
      }
      if Has(at, AT_SEND) {
        assert sendList == TimeList(ts.send, F_SWALL, F_SMONO) + [];
        Tset(ts.send, F_SWALL, F_SMONO, []);
      }
    }

    /** No stamp is set: there is nothing to remove. */
    method RemoveTimestamps()
      requires Valid() && forall f :: f in fb.on ==> f < F_RWALL
      modifies fb`fields, fb`on, fb`blen, fb.data
      ensures Valid() && fb.on == old(fb.on) && fb.blen == old(fb.blen)
      ensures Head() == old(Head()) && fb.data[..] == old(fb.data[..])
    {
      CapFacts();
      hide Parse, Caps, CapSum, FieldOf, Values;
      for f := F_RWALL to 13
        invariant Valid() && fb.on == old(fb.on) && fb.blen == old(fb.blen)
        invariant Head() == old(Head()) && fb.data[..] == old(fb.data[..])
      {
        fb.Remove(f);
        assert fb.on == old(fb.on);
      }
    }

    // Layout

    method AddReceivedStatsFields(rs: ReceivedStats)
      requires Shaped()
      modifies fb
      ensures Shaped() && fb.on == old(fb.on) + StatsFields(rs)
      ensures fb.blen == old(fb.blen) && fb.tlen == old(fb.tlen)
    {
      hide Has, CapSum, FieldOf, Selected, SetOf;
      var rfs := [];
      if Has(rs, COUNT) {
        rfs := rfs + [F_RCOUNT];
      }
      if Has(rs, WINDOW) {
        rfs := rfs + [F_RWINDOW];
      }
      CapFacts();
      StatsFieldsSelected(rs);
      assert rfs == StatsFieldList(rs);
      var err := fb.AddFields(rfs, false);
    }

    method AddTimestampFields(at: StampAt, c: ClockParam)
      requires Shaped()
      modifies fb
      ensures Shaped() && fb.on == old(fb.on) + StampFields(at, c)
      ensures fb.blen == old(fb.blen) && fb.tlen == old(fb.tlen)
    {
      hide Has, CapSum, FieldOf, Selected, ClockFields, SetOf, Caps;
      var tfs := ClockFields(Has(at, AT_RECEIVE), c, F_RWALL, F_RMONO)
               + ClockFields(Has(at, AT_MIDPOINT), c, F_MWALL, F_MMONO)
               + ClockFields(Has(at, AT_SEND), c, F_SWALL, F_SMONO);
      StampFieldsSelected(at, c);
      CapFacts();
      var err := fb.AddFields(tfs, false);
    }

    // HMAC

    /** Writes a digest of the packet into it. The `else` branch of the source is for a packet that has the
        field but no key. No caller makes one, and it would panic: see `RemovingHMACPanics`. */
    method UpdateHMAC()
      requires Valid() && (hmac.Some? ==> fb.HasRoom(F_HMAC)) && (hmac.None? ==> F_HMAC !in fb.on)
      modifies fb`fields, fb`on, fb`blen, fb.data
      ensures Valid()
      ensures hmac.Some? ==>
                && fb.on == old(fb.on) + {F_HMAC} && fb.blen == old(fb.BlenWith(F_HMAC))
                && Authentic(hmac.value, fb.Contents())
                && Head() == old(Head()).(flags := SetFlag(old(Head()).flags, FL_HMAC), mac := Head().mac)
                && (F_HMAC in old(fb.on) ==> fb.Payload() == old(fb.Payload()))
      ensures hmac.None? ==>
                && fb.on == old(fb.on) && fb.blen == old(fb.blen) && fb.data[..] == old(fb.data[..])
    {
      if hmac.Some? {
        SetFlagBits(FL_HMAC);
        hide *;
        ZeroHMAC();
        Sign();
      }
    }

    /** Removing the field would panic: there are not as many bytes before it as it has. */
    lemma RemovingHMACPanics()
      requires Valid() && F_HMAC in fb.on
      ensures |fb.caps| == 13 && fb.caps[F_HMAC] > Offset(fb.caps, fb.on, F_HMAC)
    {
      StartCaps();
      StartOffsets(fb.on);
    }

    method ZeroHMAC()
      requires Valid() && fb.HasRoom(F_HMAC)
      modifies fb`fields, fb`on, fb`blen, fb.data
      ensures Valid() && Head() == old(Head()).(mac := Zeros(16))
      ensures fb.on == old(fb.on) + {F_HMAC} && fb.blen == old(fb.BlenWith(F_HMAC))
      ensures F_HMAC in old(fb.on) ==> fb.Payload() == old(fb.Payload())
    {
      RoomMeans(F_HMAC);
      ParseStart(fb.Vals(), [], 0, Zeros(16));
      hide Parse, Caps, CapSum;
      fb.Set(F_HMAC, Zeros(16));
    }

    /** Where the HMAC is, and what the packet looks like around it. */
    lemma HMACBytes()
      requires Valid() && F_HMAC in fb.on
      ensures MAC_END <= fb.blen && Offset(fb.caps, fb.on, F_HMAC) == MAC_START
      ensures fb.data[..][MAC_START..MAC_END] == fb.Vals()[F_HMAC] == Head().mac
    {
      CapFacts();
      StartOffsets(fb.on);
      OffsetMonotone(fb.caps, fb.on, 3, 13);
    }

    method Sign()
      requires Valid() && hmac.Some? && F_HMAC in fb.on && Head().mac == Zeros(16)
      modifies fb.data
      ensures Valid() && Authentic(hmac.value, fb.Contents())
      ensures Head() == old(Head()).(mac := Head().mac) && fb.Payload() == old(fb.Payload())
    {
      HMACBytes();
      SignedIsAuthentic(hmac.value, fb.data[..], fb.blen);
      hide Parse, Caps, CapSum, Written, Authentic, Values, Offset, End, FieldOf, Zeros, Width;
      PutMAC(hmac.value(fb.data[..][..fb.blen]));
    }

    method PutMAC(mac: Digest)
      requires Valid() && F_HMAC in fb.on
      modifies fb.data
      ensures Valid() && MAC_END <= fb.data.Length && fb.data[..] == Written(old(fb.data[..]), MAC_START, mac)
      ensures Head() == old(Head()).(mac := mac) && fb.Payload() == old(fb.Payload())
    {
      hide *;
      ValidMeans();
      HMACBytes();
      StartCaps();
      ShapedMeans();
      ParseStart(fb.Vals(), [], 0, mac);
      fb.Overwrite(F_HMAC, mac);
      ShapedMeans();
    }

    // Receiving

    /** Makes a packet of the first `n` bytes of the buffer. */
    method ReadReset(n: nat) returns (err: Option<PacketError>)
      requires fb.Valid() && fb.caps == Caps() && n <= fb.data.Length
      modifies fb, fb.data
      ensures fb.Valid() && fb.on == InitSet(hmac) && fb.blen == fb.tlen == n
      ensures err == ReadError(hmac, old(fb.data[..])[..n])
      ensures err.None? ==> Valid() && Head().flags == old(fb.data[..])[3]
      ensures err.None? ==>
                fb.Contents() == if hmac.Some? then Blanked(old(fb.data[..])[..n]) else old(fb.data[..])[..n]
    {
      CapFacts();
      InitSelected(hmac);
      hide ReadError, ContentError, StampError, Blanked, Parse, Values, Caps, CapSum, Selected, Offset, End;
      var ferr := fb.SetFields(InitFields(hmac), false);
      fb.blen := n;
      fb.tlen := n;
      ferr := fb.Validate();
      InitLength();
      if ferr.Some? {
        ReadErrorShort(hmac, fb.Contents());
        return Some(FieldsTooLong);
      }
      NoStampsYet();
      ReadErrorLong(hmac, Head(), fb.Contents());
      err := Validate();
    }

    /** A packet that has just been reset has no stamps, so the checks on them pass. */
    lemma NoStampsYet()
      requires Valid() && fb.on == InitSet(hmac)
      ensures StampError(Head()).None?
    {
      hide Parse, Values, Caps, CapSum, FieldOf, Offset, End;
      FieldsPresent();
    }

    lemma InitLength()
      requires fb.Valid() && fb.caps == Caps() && fb.on == InitSet(hmac)
      ensures fb.Flen() == if hmac.Some? then MAC_END else MAC_START
    {
      CapFacts();
      StartOffsets(fb.on);
      OffsetFlat(fb.on, 13);
    }

    method Validate() returns (err: Option<PacketError>)
      requires Valid() && (hmac.Some? ==> F_HMAC in fb.on)
      modifies fb.data
      ensures Valid() && MAC_START <= fb.blen && err == ContentError(hmac, old(Head()), old(fb.Contents()))
      ensures err.None? ==> Head().flags == old(fb.data[3])
      ensures err.None? && hmac.None? ==> fb.Contents() == old(fb.Contents())
      ensures err.None? && hmac.Some? ==> MAC_END <= fb.blen && fb.Contents() == Blanked(old(fb.Contents()))
    {
      hide Authentic, HasFlag, Blanked, Magic, Parse, Values, Caps, CapSum, FieldOf, Offset, End, StampError;
      StartCaps();
      StartBytes();
      if fb.Get(F_MAGIC) != Magic() {
        return Some(BadMagic);
      }
      var flags := Flags();
      if flags > FL_ALL {
        return Some(InvalidFlagBitsSet);
      }
      err := CheckStamps();
      if err.Some? {
        return;
      }
      if hmac.Some? {
        err := CheckHMAC(flags);
      } else {
        err := if HasFlag(flags, FL_HMAC) then Some(UnexpectedHMAC) else None;
      }
    }

    method CheckStamps() returns (err: Option<PacketError>)
      requires Valid()
      ensures err == StampError(Head())
    {
      CapFacts();
      FieldsPresent();
      hide Caps, CapSum, Parse, FieldOf, Values;
      if HasMidpointStamp() && (HasReceiveStamp() || HasSendStamp()) {
        return Some(NonexclusiveMidpointTStamp);
      }
      if HasReceiveStamp() && HasSendStamp() {
        if fb.IsSet(F_RWALL) != fb.IsSet(F_SWALL) || fb.IsSet(F_RMONO) != fb.IsSet(F_SMONO) {
          return Some(InconsistentClocks);
        }
      }
      return None;
    }

    lemma StartBytes()
      requires Valid()
      ensures MAC_START <= fb.blen && fb.Vals()[F_MAGIC] == fb.Contents()[..3]
      ensures Head().magic == fb.Contents()[..3] && Head().flags == fb.Contents()[3] == fb.data[3]
    {
      hide *;
      ValidMeans();
      MagicValue();
      FlagsValue();
      PrefixStart(fb.data[..], fb.blen);
    }

    lemma MagicValue()
      requires Valid()
      ensures MAC_START <= fb.blen && |fb.Vals()| == 13
      ensures fb.Vals()[F_MAGIC] == Head().magic == fb.data[..][..3]
    {
      CapFacts();
      StartOffsets(fb.on);
      OffsetMonotone(fb.caps, fb.on, 2, 13);
      ValueSlice(fb.caps, fb.on, fb.data[..], F_MAGIC);
    }

    /** Takes the digest out of the packet, and compares it with the packet's own. */
    method CheckHMAC(flags: byte) returns (err: Option<PacketError>)
      requires Valid() && hmac.Some? && F_HMAC in fb.on
      modifies fb.data
      ensures Valid() && MAC_END <= fb.blen && Head() == old(Head()).(mac := Head().mac)
      ensures err == if !HasFlag(flags, FL_HMAC) then Some(NoHMAC)
                     else if !Authentic(hmac.value, old(fb.Contents())) then Some(BadHMAC) else None
      ensures err.None? ==> fb.Contents() == Blanked(old(fb.Contents()))
    {
      HMACBytes();
      if !HasFlag(flags, FL_HMAC) {
        return Some(NoHMAC);
      }
      err := CompareMAC();
    }

    /** Compares the digest in the packet with the packet's own, and leaves the field zeroed. */
    method CompareMAC() returns (err: Option<PacketError>)
      requires Valid() && hmac.Some? && F_HMAC in fb.on
      modifies fb.data
      ensures Valid() && Head() == old(Head()).(mac := Zeros(16)) && MAC_END <= fb.blen
      ensures fb.Contents() == Blanked(old(fb.Contents()))
      ensures err == if Authentic(hmac.value, old(fb.Contents())) then None else Some(BadHMAC)
    {
      hide *;
      ValidMeans();
      HMACBytes();
      BlankedPrefix(fb.data[..], fb.blen);
      AuthenticMeans(hmac.value, fb.data[..], fb.blen);
      StartCaps();
      var y := fb.Get(F_HMAC);
      PutMAC(Zeros(16));
      ValidMeans();
      var x := hmac.value(fb.data[..][..fb.blen]);
      err := if y != x then Some(BadHMAC) else None;
    }
  }

  lemma AuthenticMeans(hash: Hash, d: bytes, n: nat)
    requires MAC_END <= n <= |d|
    ensures |d[..n]| >= MAC_END
    ensures Authentic(hash, d[..n]) <==> d[MAC_START..MAC_END] == hash(Blanked(d[..n]))
  {
    assert d[..n][MAC_START..MAC_END] == d[MAC_START..MAC_END];
  }

  lemma ReadErrorShort(hmac: Option<Hash>, c: bytes)
    requires |c| < if hmac.Some? then MAC_END else MAC_START
    ensures ReadError(hmac, c) == Some(FieldsTooLong)
  {
  }

  lemma ReadErrorLong(hmac: Option<Hash>, h: Header, c: bytes)
    requires StampError(h).None? && |c| >= if hmac.Some? then MAC_END else MAC_START
    ensures |c| > 3 && ReadError(hmac, c) == ContentError(hmac, h, c)
  {
  }

  lemma PrefixStart(d: bytes, n: nat)
    requires MAC_START <= n <= |d|
    ensures n > 3 && d[..n][..3] == d[..3] && d[..n][3] == d[3]
  {
  }

  lemma BlankedPrefix(d: bytes, n: nat)
    requires MAC_END <= n <= |d|
    ensures Written(d, MAC_START, Zeros(16))[..n] == Blanked(d[..n])
  {
  }

  lemma {:induction false} OffsetFlat(on: set<nat>, i: nat)
    requires on <= {F_MAGIC, F_FLAGS, F_HMAC} && 3 <= i <= |Caps()|
    ensures Offset(Caps(), on, i) == Offset(Caps(), on, 3)
  {
    if i > 3 {
      OffsetFlat(on, i - 1);
    }
  }
}
