/** Packets as bytes: where the fields are, and which packets are let through. */
module WireFormat {
  import opened EchoReply
  import opened EchoRequest
  import opened Layout
  import opened Numbers
  import opened Packets
  import opened Times

  // Fields

  /** Little-endian numbers. */
  function Number32(d: bytes, i: nat): u32
    requires i + 4 <= |d|
  {
    var b0: int, b1: int, b2: int, b3: int := d[i], d[i + 1], d[i + 2], d[i + 3];
    b0 + 0x100 * b1 + 0x1_0000 * b2 + 0x100_0000 * b3
  }

  function Number64(d: bytes, i: nat): u64
    requires i + 8 <= |d|
  {
    Number32(d, i) + 0x1_0000_0000 * Number32(d, i + 4)
  }

  /** In two's complement. */
  function Signed64(d: bytes, i: nat): i64
    requires i + 8 <= |d|
  {
    if d[i + 7] >= 0x80 then Number64(d, i) - TWO_64 else Number64(d, i)
  }

  lemma LittleEndian32(d: bytes, i: nat)
    requires i + 4 <= |d|
    ensures Uint32(d[i..i + 4]) == Number32(d, i) == GetLE(d[i..i + 4])
  {
    var b := d[i..i + 4];
    assert b[1..][1..] == b[2..] && b[2..][1..] == b[3..] && b[3..][1..] == [];
    var b1: int, b2: int, b3: int := b[1], b[2], b[3];
    assert GetLE(b[3..]) == b3;
    assert GetLE(b[2..]) == b2 + 0x100 * b3;
    assert GetLE(b[1..]) == b1 + 0x100 * b2 + 0x1_0000 * b3;
  }

  lemma {:induction false} GetLEAppend(a: bytes, b: bytes)
    ensures GetLE(a + b) == GetLE(a) + Base(|a|) * GetLE(b)
  {
    if a == [] {
      assert a + b == b;
    } else {
      assert (a + b)[1..] == a[1..] + b;
      GetLEAppend(a[1..], b);
      Distribute(GetLE(a[1..]), Base(|a| - 1), GetLE(b));
    }
  }

  lemma Distribute(x: int, y: int, z: int)
    ensures 0x100 * (x + y * z) == 0x100 * x + (0x100 * y) * z
  {
  }

  lemma LittleEndian64(d: bytes, i: nat)
    requires i + 8 <= |d|
    ensures Uint64(d[i..i + 8]) == Number64(d, i) && Int64(d[i..i + 8]) == Signed64(d, i)
  {
    LittleEndian32(d, i);
    LittleEndian32(d, i + 4);
    assert d[i..i + 8] == d[i..i + 4] + d[i + 4..i + 8];
    GetLEAppend(d[i..i + 4], d[i + 4..i + 8]);
    BaseWidths();
    hide GetLE, Base;
  }

  /** A packet that has every field. */
  function AllFields(): set<nat> { {0, 1, 2, 3, 4, 5, 6, 7, 8, 9, 10, 11, 12} }

  lemma AllOffsets()
    ensures |Caps()| == 13 && CapSum(Caps(), 13) == 92
    ensures forall f | 0 <= f < 13 :: Offset(Caps(), AllFields(), f)
                                      == [0, 3, 4, 20, 28, 32, 36, 44, 52, 60, 68, 76, 84][f]
    ensures Offset(Caps(), AllFields(), 13) == 92
  {
    CapFacts();
    assert forall f | 0 <= f < 13 :: Width(Caps(), AllFields(), f) == Caps()[f];
    hide Width, Caps, AllFields;
    assert Offset(Caps(), AllFields(), 0) == 0;
    assert Offset(Caps(), AllFields(), 1) == 3;
    assert Offset(Caps(), AllFields(), 2) == 4;
    assert Offset(Caps(), AllFields(), 3) == 20;
    assert Offset(Caps(), AllFields(), 4) == 28;
    assert Offset(Caps(), AllFields(), 5) == 32;
    assert Offset(Caps(), AllFields(), 6) == 36;
    assert Offset(Caps(), AllFields(), 7) == 44;
    assert Offset(Caps(), AllFields(), 8) == 52;
    assert Offset(Caps(), AllFields(), 9) == 60;
    assert Offset(Caps(), AllFields(), 10) == 68;
    assert Offset(Caps(), AllFields(), 11) == 76;
    assert Offset(Caps(), AllFields(), 12) == 84;
  }

  lemma AllValues(d: bytes)
    requires |d| >= 92
    ensures |Caps()| == 13 && CapSum(Caps(), 13) == 92
    ensures var vs := Values(Caps(), AllFields(), d);
            && vs[0] == d[0..3] && vs[1] == d[3..4] && vs[2] == d[4..20] && vs[3] == d[20..28] && vs[4] == d[28..32]
            && vs[5] == d[32..36] && vs[6] == d[36..44] && vs[7] == d[44..52] && vs[8] == d[52..60]
            && vs[9] == d[60..68] && vs[10] == d[68..76] && vs[11] == d[76..84] && vs[12] == d[84..92]
  {
    AllOffsets();
    hide Offset, Caps, CapSum, AllFields;
  }

  lemma Filled(d: bytes, i: nat)
    ensures i + 4 <= |d| ==> Parse32(d[i..i + 4]) == Some(Number32(d, i))
    ensures i + 8 <= |d| ==> Parse64(d[i..i + 8]) == Some(Number64(d, i))
    ensures i + 8 <= |d| ==> ParseSigned(d[i..i + 8]) == Some(Signed64(d, i))
  {
    if i + 4 <= |d| {
      LittleEndian32(d, i);
    }
    if i + 8 <= |d| {
      LittleEndian64(d, i);
    }
    hide Uint32, Uint64, Int64, Number32, Number64, Signed64, GetLE;
  }

  /** Where the fields of a header are, if it has them all. */
  lemma HeaderBytes(d: bytes)
    requires |d| >= 92
    ensures |Caps()| == 13 && CapSum(Caps(), 13) == 92
    ensures var h := Parse(Values(Caps(), AllFields(), d));
            && h.magic == d[0..3] && h.flags == d[3] && h.mac == d[4..20]
            && h.token == Some(Number64(d, 20)) && h.seqno == Some(Number32(d, 28))
            && h.count == Some(Number32(d, 32)) && h.window == Some(Number64(d, 36))
            && h.receive == Stamp(Some(Signed64(d, 44)), Some(Signed64(d, 52)))
            && h.mid == Stamp(Some(Signed64(d, 60)), Some(Signed64(d, 68)))
            && h.send == Stamp(Some(Signed64(d, 76)), Some(Signed64(d, 84)))
  {
    AllValues(d);
    hide Values, Caps, CapSum, AllFields, Parse32, Parse64, ParseSigned, Number32, Number64, Signed64;
    Filled(d, 20);
    Filled(d, 28);
    Filled(d, 32);
    Filled(d, 36);
    Filled(d, 44);
    Filled(d, 52);
    Filled(d, 60);
    Filled(d, 68);
    Filled(d, 76);
    Filled(d, 84);
    assert d[3..4][0] == d[3];
  }

  // Packets let through

  /** The magic bytes, no unknown flags, and a digest of the packet with its digest zeroed exactly if there is a key. */
  predicate Genuine(hmac: Option<Hash>, c: bytes) {
    match hmac
    case None => |c| >= 4 && c[..3] == [0x14, 0xa7, 0x5b] && c[3] < 8
    case Some(hash) =>
      && |c| >= 20 && c[..3] == [0x14, 0xa7, 0x5b] && 8 <= c[3] < 16
      && c[4..20] == hash(c[..4] + Zeros(16) + c[20..])
  }

  /** A packet is read exactly if it is genuine. */
  lemma ReadExactly(hmac: Option<Hash>, c: bytes)
    ensures ReadError(hmac, c).None? <==> Genuine(hmac, c)
  {
    if hmac.Some? && |c| >= 20 {
      assert Blanked(c) == c[..4] + Zeros(16) + c[20..];
    }
  }

  /** A client looks at the optional fields exactly of genuine replies that are no shorter than its requests, and have
      no flag but those of a reply and of a digest. */
  lemma ReplyReadExactly(hmac: Option<Hash>, c: bytes, bound: int)
    ensures EarlyError(hmac, c, bound).None? <==> Genuine(hmac, c) && c[3] % 8 == 2 && |c| >= bound
  {
    ReadExactly(hmac, c);
    hide ReadError;
  }

  /** Where the fields of a request are. */
  function Shift(hmac: Option<Hash>): nat { if hmac.Some? then 16 else 0 }

  /** A genuine packet with the address and the token of a connection. */
  predicate FromClient(hmac: Option<Hash>, conns: Conns, from: Address, c: bytes) {
    && Genuine(hmac, c) && |c| >= 12 + Shift(hmac)
    && var token := Number64(c, 4 + Shift(hmac)); token in conns && conns[token] == from
  }

  /** A server serves exactly the packets of its clients that have no flag but that of a digest, and a seqno; and
      takes for a request to close exactly those with the close flag. */
  lemma RequestReadExactly(hmac: Option<Hash>, conns: Conns, from: Address, c: bytes)
    ensures RequestErrorOf(hmac, conns, from, c).None?
       <==> FromClient(hmac, conns, from, c) && c[3] % 8 == 0 && |c| >= 16 + Shift(hmac)
    ensures RequestErrorOf(hmac, conns, from, c) == Some(CloseRequest)
       <==> FromClient(hmac, conns, from, c) && c[3] % 8 == 4
  {
    hide ReadError, Genuine, Uint64, Number64, HasFlag;
    ReadExactly(hmac, c);
    GenuineLength(hmac, c);
    if |c| >= TokenEnd(hmac) {
      LittleEndian64(c, 4 + Shift(hmac));
    }
    if |c| > 3 {
      RequestFlagBits(c[3]);
    }
  }

  lemma RequestFlagBits(v: byte)
    ensures v < 16 ==> (v % 8 == 0 <==> !HasFlag(v, FL_REPLY) && !HasFlag(v, FL_OPEN) && !HasFlag(v, FL_CLOSE))
    ensures v < 16 ==> (v % 8 == 4 <==> !HasFlag(v, FL_REPLY) && !HasFlag(v, FL_OPEN) && HasFlag(v, FL_CLOSE))
  {
  }

  lemma GenuineLength(hmac: Option<Hash>, c: bytes)
    ensures Genuine(hmac, c) ==> |c| > 3 && c[3] < 16
  {
  }
}
