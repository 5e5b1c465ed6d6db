/** Variable-length integers: base 128 varints, and zigzag for signed ones. */
module Varints {
  import opened Numbers

  const MAX_VARINT_LEN := 10

  function Uvarint(x: nat): (b: bytes)
    ensures b != []
  {
    if x < 0x80 then [x] else [x % 0x80 + 0x80] + Uvarint(x / 0x80)
  }

  datatype Decoded = Value(v: u64, n: nat) | TooShort | Overflow

  /** One more than the largest value that bytes `i ..` of a varint may add up to. */
  function Limit(i: nat): (r: nat)
    requires i < MAX_VARINT_LEN
    decreases MAX_VARINT_LEN - i
  {
    if i == 9 then 2 else 0x80 * Limit(i + 1)
  }

  lemma LimitOfAll()
    ensures Limit(0) == 0x1_0000_0000_0000_0000
  {
    assert Limit(7) == 0x8000;
    assert Limit(5) == 0x2000_0000;
    assert Limit(3) == 0x800_0000_0000;
    assert Limit(1) == 0x200_0000_0000_0000;
  }

  lemma {:induction false} LimitFits(i: nat)
    requires i < MAX_VARINT_LEN
    ensures 0 < Limit(i) <= 0x1_0000_0000_0000_0000
    decreases i
  {
    if i == 0 {
      LimitOfAll();
    } else {
      LimitFits(i - 1);
    }
  }

  /** Reads the varint of `b` from its byte `i`. */
  function ReadFrom(b: bytes, i: nat): (r: Decoded)
    requires i <= |b| && i <= MAX_VARINT_LEN
    ensures r.Value? ==> i < MAX_VARINT_LEN && r.v < Limit(i) && i < r.n <= |b|
    decreases |b| - i
  {
    if i == |b| then TooShort
    else if i == MAX_VARINT_LEN then Overflow
    else if b[i] < 0x80 then
      LimitGrows(i);
      if i == MAX_VARINT_LEN - 1 && b[i] > 1 then Overflow else Value(b[i], i + 1)
    else
      match ReadFrom(b, i + 1)
      case Value(v, n) =>
        LimitFits(i);
        Value(v * 0x80 + (b[i] - 0x80), n)
      case other => other
  }

  lemma {:induction false} LimitGrows(i: nat)
    requires i < MAX_VARINT_LEN
    ensures i < 9 ==> Limit(i) >= 0x80
    decreases MAX_VARINT_LEN - i
  {
    if i < 9 {
      LimitGrows(i + 1);
    }
  }

  /** `binary.Uvarint`. */
  function ReadUvarint(b: bytes): Decoded { ReadFrom(b, 0) }

  lemma {:induction false} ReadBack(pre: bytes, x: nat, rest: bytes)
    requires |pre| < MAX_VARINT_LEN && x < Limit(|pre|)
    ensures x < 0x1_0000_0000_0000_0000
    ensures ReadFrom(pre + Uvarint(x) + rest, |pre|) == Value(x, |pre| + |Uvarint(x)|)
    decreases x
  {
    LimitFits(|pre|);
    var b := pre + Uvarint(x) + rest;
    if x >= 0x80 {
      var next := pre + [x % 0x80 + 0x80];
      assert b == next + Uvarint(x / 0x80) + rest;
      ReadBack(next, x / 0x80, rest);
    }
  }

  lemma UvarintRoundTrip(x: u64, rest: bytes)
    ensures ReadUvarint(Uvarint(x) + rest) == Value(x, |Uvarint(x)|)
  {
    LimitOfAll();
    ReadBack([], x, rest);
    assert [] + Uvarint(x) + rest == Uvarint(x) + rest;
  }

  // What a varint is

  /** All bytes but the last have their top bit set. */
  ghost predicate Continued(b: bytes) {
    b != [] && b[|b| - 1] < 0x80 && forall i :: 0 <= i < |b| - 1 ==> b[i] >= 0x80
  }

  /** The number whose groups of seven bits are the low bits of `b`, the least significant first. */
  function SevenBitValue(b: bytes): nat { if b == [] then 0 else b[0] % 0x80 + 0x80 * SevenBitValue(b[1..]) }

  /** A varint of the Protocol Buffers encoding. */
  ghost predicate IsUvarint(b: bytes, x: nat) { Continued(b) && SevenBitValue(b) == x }

  lemma {:induction false} UvarintMeans(x: nat)
    ensures IsUvarint(Uvarint(x), x)
  {
    if x >= 0x80 {
      UvarintMeans(x / 0x80);
      assert Uvarint(x)[1..] == Uvarint(x / 0x80);
    }
  }

  /** `Uvarint` gives the shortest varint of a number, and the only one as short. */
  lemma {:induction false} UvarintShortest(b: bytes, x: nat)
    requires IsUvarint(b, x)
    ensures |Uvarint(x)| < |b| || Uvarint(x) == b
    decreases |b|
  {
    if b[0] < 0x80 {
      LastGroup(b, x);
    } else {
      MoreGroups(b, x);
      if x >= 0x80 {
        UvarintShortest(b[1..], x / 0x80);
        assert b == [b[0]] + b[1..];
      }
    }
  }

  lemma LastGroup(b: bytes, v: nat)
    requires b != [] && b[0] < 0x80
    ensures IsUvarint(b, v) <==> |b| == 1 && v == b[0]
  {
    if |b| == 1 {
      assert b[1..] == [] && SevenBitValue([]) == 0;
      assert SevenBitValue(b) == b[0] % 0x80;
    } else {
      assert 0 < |b| - 1 && !(b[0] >= 0x80);
    }
  }

  lemma MoreGroups(b: bytes, v: nat)
    requires b != [] && b[0] >= 0x80
    ensures IsUvarint(b, v) <==> v % 0x80 == b[0] - 0x80 && IsUvarint(b[1..], v / 0x80)
  {
    if Continued(b[1..]) {
      assert forall i :: 1 <= i < |b| ==> b[i] == b[1..][i - 1];
    }
  }

  lemma {:induction false} ReadFromExactly(b: bytes, i: nat, v: u64, n: nat)
    requires i <= |b| && i <= MAX_VARINT_LEN
    ensures ReadFrom(b, i) == Value(v, n)
       <==> i < n <= |b| && n <= MAX_VARINT_LEN && IsUvarint(b[i..n], v) && v < Limit(i)
    decreases |b| - i
  {
    if i < |b| && i < MAX_VARINT_LEN {
      if i < n <= |b| {
        assert b[i..n][0] == b[i] && b[i..n][1..] == b[i + 1..n];
        if b[i] < 0x80 {
          LastGroup(b[i..n], v);
        } else {
          MoreGroups(b[i..n], v);
        }
      }
      hide IsUvarint;
      if b[i] < 0x80 {
        LimitGrows(i);
        assert i == 9 ==> Limit(i) == 2;
      } else {
        ReadFromExactly(b, i + 1, v / 0x80, n);
        LimitEnds(i, v);
        NoGroup();
      }
    }
  }

  lemma NoGroup()
    ensures forall v: nat :: !IsUvarint([], v)
  {
  }

  lemma LimitEnds(i: nat, v: u64)
    requires i < MAX_VARINT_LEN
    ensures i < 9 ==> (v < Limit(i) <==> v / 0x80 < Limit(i + 1))
  {
  }

  /** A value is read exactly if the bytes start with a varint of at most ten bytes that fits 64 bits. */
  lemma ReadUvarintExactly(b: bytes, v: u64, n: nat)
    ensures ReadUvarint(b) == Value(v, n)
       <==> 0 < n <= |b| && n <= MAX_VARINT_LEN && IsUvarint(b[..n], v)
  {
    LimitOfAll();
    ReadFromExactly(b, 0, v, n);
    if n <= |b| {
      assert b[0..n] == b[..n];
    }
  }

  lemma {:induction false} ReadFromShort(b: bytes, i: nat)
    requires i <= |b| && i <= MAX_VARINT_LEN
    ensures ReadFrom(b, i).TooShort? <==> |b| <= MAX_VARINT_LEN && forall k :: i <= k < |b| ==> b[k] >= 0x80
    decreases |b| - i
  {
    if i < |b| && i < MAX_VARINT_LEN && b[i] >= 0x80 {
      ReadFromShort(b, i + 1);
    }
  }

  /** The bytes are too few exactly if there are at most ten of them and none of them ends a varint. */
  lemma ReadUvarintShort(b: bytes)
    ensures ReadUvarint(b).TooShort? <==> |b| <= MAX_VARINT_LEN && forall k :: 0 <= k < |b| ==> b[k] >= 0x80
  {
    ReadFromShort(b, 0);
  }

  // Signed numbers

  /** How `binary.PutVarint` codes a number: it is shifted left, and its bits are inverted if it is negative. */
  function ZigZag(x: i64): u64 {
    var shifted := 2 * ToU64(x) % TWO_64;
    if x < 0 then TWO_64 - 1 - shifted else shifted
  }

  /** How `binary.Varint` decodes it. */
  function UnZigZag(u: u64): i64 {
    var half := u / 2;
    if u % 2 == 1 then -half - 1 else half
  }

  /** The code of a number: 0, 1, 2, 3, ... stand for 0, -1, 1, -2, ... */
  function SignedCode(x: int): nat { if x >= 0 then 2 * x else 2 * (-x - 1) + 1 }

  lemma ZigZagMeans(x: i64)
    ensures ZigZag(x) == SignedCode(x)
  {
  }

  /** Every code is that of one number. */
  lemma UnZigZagExactly(u: u64, x: i64)
    ensures UnZigZag(u) == x <==> u == SignedCode(x)
  {
  }

  lemma ZigZagRoundTrip(x: i64)
    ensures UnZigZag(ZigZag(x)) == x
  {
  }

  function Varint(x: i64): bytes { Uvarint(ZigZag(x)) }

  /** 128 to the power `n`. */
  function Groups(n: nat): nat {
    if n == 0 then 1 else 0x80 * Groups(n - 1)
  }

  /** A value takes at most `n` bytes exactly when it fits `n` groups of seven bits. */
  lemma {:induction false} UvarintLength(x: nat, n: nat)
    requires n > 0
    ensures |Uvarint(x)| <= n <==> x < Groups(n)
    decreases n
  {
    if n > 1 {
      UvarintLength(x / 0x80, n - 1);
      assert x < Groups(n) <==> x / 0x80 < Groups(n - 1);
    } else {
      assert Groups(1) == 0x80;
    }
  }

  /** `binary.PutUvarint(b[pos:], x)`, which panics if the buffer is too short. */
  method PutUvarint(b: array<byte>, pos: nat, x: u64) returns (n: nat)
    requires pos + |Uvarint(x)| <= b.Length
    modifies b
    ensures n == |Uvarint(x)| && b[..pos + n] == old(b[..pos]) + Uvarint(x)
  {
    var i := pos;
    var y: nat := x;
    while y >= 0x80
      invariant pos <= i && i + |Uvarint(y)| == pos + |Uvarint(x)|
      invariant b[..i] + Uvarint(y) == old(b[..pos]) + Uvarint(x)
    {
      b[i] := y % 0x80 + 0x80;
      assert b[..i + 1] + Uvarint(y / 0x80) == b[..i] + Uvarint(y);
      y := y / 0x80;
      i := i + 1;
    }
    b[i] := y;
    assert b[..i + 1] == b[..i] + Uvarint(y);
    n := i + 1 - pos;
  }
}
