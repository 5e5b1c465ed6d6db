/** Machine integers, little-endian fields and single-bit tests shared by every other module. */
module Numbers {
  const TWO_32: nat := 0x1_0000_0000
  const TWO_63: nat := 0x8000_0000_0000_0000
  const TWO_64: nat := 0x1_0000_0000_0000_0000

  type byte = x: int | 0 <= x < 0x100
  type u32 = x: int | 0 <= x < 0x1_0000_0000
  type u64 = x: int | 0 <= x < 0x1_0000_0000_0000_0000
  type i64 = x: int | -0x8000_0000_0000_0000 <= x < 0x8000_0000_0000_0000
  type bytes = seq<byte>

  datatype Option<+T> = None | Some(value: T)

  /** Whether the flag `bit`, a power of two, is set in `v`. */
  predicate Has(v: nat, bit: nat)
    requires bit > 0
  {
    v / bit % 2 == 1
  }

  function AddU64(x: u64, n: nat): u64 { (x + n) % 0x1_0000_0000_0000_0000 }

  function AddU32(x: u32, n: nat): u32 { (x + n) % 0x1_0000_0000 }

  lemma AddU32Twice(x: u32, m: nat, n: nat)
    ensures AddU32(AddU32(x, m), n) == AddU32(x, m + n)
  {
  }

  /** Two's complement conversions between int64 and uint64. */
  function ToU64(x: i64): u64 { if x < 0 then x + TWO_64 else x }

  function ToI64(x: u64): i64 { if x >= TWO_63 then x - TWO_64 else x }

  lemma RemainderUnique(d: nat, q: nat, r: nat)
    requires r < d
    ensures (d * q + r) % d == r
  {
    var x := d * q + r;
    MultipleAtLeast(d, x / d - q);
    assert d * (x / d - q) == r - x % d;
  }

  lemma MultipleAtLeast(d: int, e: int)
    requires d >= 0
    ensures e >= 1 ==> d * e >= d
    ensures e <= -1 ==> d * e <= -d
  {
  }

  /** `256` to the power `n`. */
  function Base(n: nat): (r: nat)
    ensures r > 0
  {
    if n == 0 then 1 else 0x100 * Base(n - 1)
  }

  /** The low `n` bytes of `v`, least significant first. */
  function PutLE(v: nat, n: nat): (b: bytes)
    ensures |b| == n
  {
    if n == 0 then [] else [v % 0x100] + PutLE(v / 0x100, n - 1)
  }

  function GetLE(b: bytes): nat {
    if b == [] then 0 else b[0] + 0x100 * GetLE(b[1..])
  }

  lemma {:induction false} GetPutLE(v: nat, n: nat)
    requires v < Base(n)
    ensures GetLE(PutLE(v, n)) == v
  {
    if n > 0 {
      GetPutLE(v / 0x100, n - 1);
      assert PutLE(v, n)[1..] == PutLE(v / 0x100, n - 1);
    }
  }

  lemma {:induction false} GetLEBound(b: bytes)
    ensures GetLE(b) < Base(|b|)
  {
    if b != [] {
      GetLEBound(b[1..]);
    }
  }

  lemma BaseWidths()
    ensures Base(4) == TWO_32 && Base(8) == TWO_64
  {
    assert Base(1) == 0x100;
    assert Base(2) == 0x1_0000;
    assert Base(3) == 0x100_0000;
    assert Base(5) == 0x100_0000_0000;
    assert Base(6) == 0x1_0000_0000_0000;
    assert Base(7) == 0x100_0000_0000_0000;
  }

  /** Go's `copy(b[pos:], s)`, which stops at the end of the buffer. */
  method Copy(b: array<byte>, pos: nat, s: bytes) returns (n: nat)
    requires pos <= b.Length
    modifies b
    ensures n == if |s| <= b.Length - pos then |s| else b.Length - pos
    ensures b[..pos + n] == old(b[..pos]) + s[..n]
  {
    n := if |s| <= b.Length - pos then |s| else b.Length - pos;
    forall k | pos <= k < pos + n {
      b[k] := s[k - pos];
    }
    var written, source := b[pos..pos + n], s[..n];
    assert forall k :: 0 <= k < n ==> written[k] == b[pos + k] == source[k];
    assert written == source;
    assert b[..pos + n] == b[..pos] + written;
  }
}
