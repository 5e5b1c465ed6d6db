/** The server's 64-bit received window. */
module Window {
  import opened Numbers

  /** The seqno held by a connection that has accepted nothing yet. */
  const INVALID_SEQNO: u32 := 0xFFFF_FFFF

  function Double(w: u64): u64 { w * 2 % 0x1_0000_0000_0000_0000 }

  /** Go's `w << n` on uint64: shifted left `n` times by one, with no limit on `n`. */
  function ShiftLeft(w: u64, n: nat): u64
    decreases n
  {
    if n == 0 then w else ShiftLeft(Double(w), n - 1)
  }

  function SetLowBit(w: u64): u64 { if w % 2 == 0 then w + 1 else w }

  predicate Bit(w: nat, k: nat) {
    if k == 0 then w % 2 == 1 else Bit(w / 2, k - 1)
  }

  function Minus(a: u32, b: int): u32 { (a - b) % 0x1_0000_0000 }

  /** `seqno - last` on uint32. It is never negative, so the branches for late packets never run. */
  function Since(seqno: u32, last: u32): u32 { Minus(seqno, last) }

  function Slide(w: u64, last: u32, seqno: u32): u64 {
    SetLowBit(ShiftLeft(w, Since(seqno, last)))
  }

  function LastOf(h: seq<u32>): u32 {
    if h == [] then INVALID_SEQNO else h[|h| - 1]
  }

  /** The window after accepting the seqnos of `h`, in that order. */
  function WindowOf(h: seq<u32>): u64 {
    if h == [] then 0
    else
      var prev := h[..|h| - 1];
      Slide(WindowOf(prev), LastOf(prev), LastOf(h))
  }

  lemma WindowOfPush(h: seq<u32>, seqno: u32)
    ensures WindowOf(h + [seqno]) == Slide(WindowOf(h), LastOf(h), seqno)
  {
    assert (h + [seqno])[..|h|] == h;
  }

  /** How far the window has slid since `h[i]` was accepted. */
  function Distance(h: seq<u32>, i: nat): nat
    requires i < |h|
  {
    if i == |h| - 1 then 0
    else
      var prev := h[..|h| - 1];
      Distance(prev, i) + Since(LastOf(h), LastOf(prev))
  }

  /** Two to the power `m`. */
  function Pow2(m: nat): (r: nat)
    ensures r > 0
  {
    if m == 0 then 1 else 2 * Pow2(m - 1)
  }

  lemma {:induction false} HighBitAside(w: nat, m: nat, k: nat)
    requires k < m
    ensures Bit(w + Pow2(m), k) == Bit(w, k)
  {
    assert Pow2(m) == 2 * Pow2(m - 1);
    if k > 0 {
      HighBitAside(w / 2, m - 1, k - 1);
    }
  }

  lemma BitOfDouble(w: u64, k: nat)
    requires k < 64
    ensures Bit(Double(w), k) <==> k > 0 && Bit(w, k - 1)
  {
    if w >= TWO_63 && k > 0 {
      TwoTo63();
      HighBitAside(w - TWO_63, 63, k - 1);
    }
  }

  lemma TwoTo63()
    ensures Pow2(63) == TWO_63
  {
    assert Pow2(4) == 0x10;
    Pow2Square(4, 0x10);
    Pow2Square(8, 0x100);
    Pow2Square(16, 0x1_0000);
    Pow2Square(32, 0x1_0000_0000);
  }

  lemma Pow2Square(a: nat, v: nat)
    requires Pow2(a) == v
    ensures Pow2(2 * a) == v * v
  {
    Pow2Sum(a, a);
  }

  lemma {:induction false} Pow2Sum(a: nat, b: nat)
    ensures Pow2(a + b) == Pow2(a) * Pow2(b)
  {
    if a > 0 {
      Pow2Sum(a - 1, b);
    }
  }

  lemma {:induction false} BitOfShift(w: u64, n: nat, k: nat)
    requires k < 64
    ensures Bit(ShiftLeft(w, n), k) <==> k >= n && Bit(w, k - n)
    decreases n
  {
    if n > 0 {
      BitOfShift(Double(w), n - 1, k);
      if k >= n - 1 {
        BitOfDouble(w, k - (n - 1));
      }
    }
  }

  lemma BitOfSlide(w: u64, last: u32, seqno: u32, k: nat)
    requires k < 64
    ensures Bit(Slide(w, last, seqno), k) <==>
              k == 0 || (k >= Since(seqno, last) && Bit(w, k - Since(seqno, last)))
  {
    BitOfShift(w, Since(seqno, last), k);
    var shifted := ShiftLeft(w, Since(seqno, last));
    assert SetLowBit(shifted) / 2 == shifted / 2;
  }

  lemma {:induction false} ZeroHasNoBits(k: nat)
    ensures !Bit(0, k)
  {
    if k > 0 {
      ZeroHasNoBits(k - 1);
    }
  }

  /** Some accepted seqno has been slid by `k`. */
  ghost predicate Slid(h: seq<u32>, k: nat) {
    exists i :: 0 <= i < |h| && Distance(h, i) == k
  }

  lemma SlidStep(h: seq<u32>, k: nat)
    requires h != []
    ensures var d := Since(LastOf(h), LastOf(h[..|h| - 1]));
            Slid(h, k) <==> k == 0 || (k >= d && Slid(h[..|h| - 1], k - d))
  {
    var prev := h[..|h| - 1];
    var d := Since(LastOf(h), LastOf(prev));
    assert Distance(h, |h| - 1) == 0;
    if i :| 0 <= i < |h| && Distance(h, i) == k {
      assert i < |prev| ==> Distance(prev, i) == k - d;
    }
    if k >= d {
      if i :| 0 <= i < |prev| && Distance(prev, i) == k - d {
        assert Distance(h, i) == k;
      }
    }
  }

  /** Bit `k` is set exactly when some accepted seqno has been slid by `k`: late packets, duplicates
      and wrap-around included. */
  lemma {:induction false} WindowExact(h: seq<u32>, k: nat)
    requires k < 64
    ensures Bit(WindowOf(h), k) <==> Slid(h, k)
  {
    if h == [] {
      ZeroHasNoBits(k);
    } else {
      var prev := h[..|h| - 1];
      var d := Since(LastOf(h), LastOf(prev));
      BitOfSlide(WindowOf(prev), LastOf(prev), LastOf(h), k);
      SlidStep(h, k);
      if k >= d {
        WindowExact(prev, k - d);
      }
    }
  }

  lemma MinusDistance(a: u32, b: u32, d: int)
    ensures Minus(a, d + Since(a, b)) == Minus(b, d)
  {
    var q := (a - b) / 0x1_0000_0000;
    assert a - (d + Since(a, b)) == (b - d) + q * 0x1_0000_0000;
  }

  lemma {:induction false} DistanceModulo(h: seq<u32>, i: nat)
    requires i < |h|
    ensures Minus(LastOf(h), Distance(h, i)) == h[i]
  {
    if i < |h| - 1 {
      var prev := h[..|h| - 1];
      DistanceModulo(prev, i);
      MinusDistance(LastOf(h), LastOf(prev), Distance(prev, i));
    }
  }

  /** Whatever order requests came in, a set bit names a seqno that was accepted. */
  lemma WindowSound(h: seq<u32>, k: nat)
    requires k < 64 && Bit(WindowOf(h), k)
    ensures Minus(LastOf(h), k) in h
    ensures k <= LastOf(h) ==> LastOf(h) - k in h
  {
    WindowExact(h, k);
    var i :| 0 <= i < |h| && Distance(h, i) == k;
    DistanceModulo(h, i);
    assert k <= LastOf(h) ==> Minus(LastOf(h), k) == LastOf(h) - k;
  }

  predicate InOrder(h: seq<u32>) {
    forall i, j :: 0 <= i < j < |h| ==> h[i] <= h[j]
  }

  /** How often the seqnos of `h`, from `h[i]` on, fall. */
  ghost function Drops(h: seq<u32>, i: nat): nat
    requires i < |h|
  {
    if i == |h| - 1 then 0
    else
      var prev := h[..|h| - 1];
      Drops(prev, i) + if LastOf(h) < LastOf(prev) then 1 else 0
  }

  /** Each time the seqnos fall, the window slides by as good as the whole range. */
  lemma {:induction false} DistanceByDrops(h: seq<u32>, i: nat)
    requires i < |h|
    ensures Distance(h, i) == LastOf(h) - h[i] + 0x1_0000_0000 * Drops(h, i)
  {
    if i < |h| - 1 {
      DistanceByDrops(h[..|h| - 1], i);
    }
  }

  lemma {:induction false} NoDropsInOrder(h: seq<u32>, i: nat)
    requires i < |h|
    ensures Drops(h, i) == 0 <==> InOrder(h[i..])
  {
    if i < |h| - 1 {
      var prev := h[..|h| - 1];
      NoDropsInOrder(prev, i);
      assert prev[i..] == h[i..][..|h| - 1 - i];
      var tail, init := h[i..], prev[i..];
      if InOrder(tail) {
        assert tail[|tail| - 2] <= tail[|tail| - 1];
      }
      if InOrder(init) && LastOf(prev) <= LastOf(h) {
        forall k, m | 0 <= k < m < |tail| ensures tail[k] <= tail[m] {
          assert init[k] <= init[|init| - 1];
        }
      }
    }
  }

  /** Once something was accepted, bit 0 is set: the window is valid. */
  lemma LowBitSet(h: seq<u32>)
    requires h != []
    ensures Bit(WindowOf(h), 0)
  {
    WindowExact(h, 0);
    assert Distance(h, |h| - 1) == 0;
  }

  /** Seqno `x` was accepted, and seqnos have not fallen since. */
  ghost predicate HeldSince(h: seq<u32>, x: u32) {
    exists i :: 0 <= i < |h| && h[i] == x && InOrder(h[i..])
  }

  /** What a bit says of a seqno: that it was accepted, and that seqnos have not fallen since. */
  lemma BitMeansHeld(h: seq<u32>, x: u32)
    requires h != [] && LastOf(h) - 64 < x <= LastOf(h)
    ensures Bit(WindowOf(h), LastOf(h) - x) <==> HeldSince(h, x)
  {
    var k := LastOf(h) - x;
    WindowExact(h, k);
    forall i | 0 <= i < |h| ensures Distance(h, i) == k <==> h[i] == x && InOrder(h[i..]) {
      DistanceByDrops(h, i);
      NoDropsInOrder(h, i);
    }
    if Slid(h, k) {
      var i :| 0 <= i < |h| && Distance(h, i) == k;
      assert h[i] == x && InOrder(h[i..]);
    }
    if HeldSince(h, x) {
      var i :| 0 <= i < |h| && h[i] == x && InOrder(h[i..]);
      assert Distance(h, i) == k;
    }
  }

  /** When requests are accepted in nondecreasing order, the window is exactly the receipt status of
      the last 64 seqnos. */
  lemma WindowComplete(h: seq<u32>, x: u32)
    requires h != [] && InOrder(h) && LastOf(h) - 64 < x <= LastOf(h)
    ensures Bit(WindowOf(h), LastOf(h) - x) <==> x in h
  {
    BitMeansHeld(h, x);
    if x in h {
      var i :| 0 <= i < |h| && h[i] == x;
      assert InOrder(h[i..]);
    }
  }
}
