/** The pattern filler: a reader that repeats its pattern for ever. */
module Filler {
  import opened Numbers

  const PATTERN_MAX_INIT_LEN := 4096

  /** `t % n`, by repeated subtraction: see `WrappedIsModulo`. */
  function Wrapped(t: nat, n: nat): (r: nat)
    requires n > 0
    ensures r < n
  {
    if t < n then t else Wrapped(t - n, n)
  }

  lemma {:induction false} WrappedSum(a: nat, c: nat, n: nat)
    requires n > 0
    ensures Wrapped(Wrapped(a, n) + c, n) == Wrapped(a + c, n)
  {
    if a >= n {
      WrappedSum(a - n, c, n);
    }
  }

  lemma {:induction false} WrappedIsModulo(t: nat, n: nat)
    requires n > 0
    ensures Wrapped(t, n) == t % n
  {
    if t >= n {
      WrappedIsModulo(t - n, n);
      var q, r := (t - n) / n, (t - n) % n;
      assert t == n * (q + 1) + r;
      RemainderUnique(n, q + 1, r);
    }
  }

  /** Bytes `t .. t + m` of the endless repetition of `pattern`. */
  function Repeated(pattern: bytes, t: nat, m: nat): (s: bytes)
    requires pattern != []
    ensures |s| == m
  {
    seq(m, i requires 0 <= i < m => pattern[Wrapped(t + i, |pattern|)])
  }

  /** Byte `i` of a read that starts after `t` bytes is byte `(t + i) % n` of the pattern. */
  lemma RepeatedAt(pattern: bytes, t: nat, m: nat, i: nat)
    requires pattern != [] && i < m
    ensures Repeated(pattern, t, m)[i] == pattern[(t + i) % |pattern|]
  {
    WrappedIsModulo(t + i, |pattern|);
  }

  /** Successive reads are pieces of one stream. */
  lemma RepeatedSplits(pattern: bytes, t: nat, m: nat, k: nat)
    requires pattern != []
    ensures Repeated(pattern, t, m + k) == Repeated(pattern, t, m) + Repeated(pattern, t + m, k)
  {
    var whole, tail := Repeated(pattern, t, m + k), Repeated(pattern, t + m, k);
    assert forall i :: 0 <= i < k ==> tail[i] == whole[m + i];
  }

  lemma InitLength(n: nat)
    requires 0 < n <= 4096
    ensures 4096 / n * (n + 1) >= n
  {
    assert 4096 / n >= 1;
  }

  /** A whole number of patterns on, the stream starts again. */
  lemma PieceOfPattern(pattern: bytes, t: nat, c: nat)
    requires pattern != [] && Wrapped(t, |pattern|) == 0 && c <= |pattern|
    ensures Repeated(pattern, t, c) == pattern[..c]
  {
    forall k | 0 <= k < c ensures Repeated(pattern, t, c)[k] == pattern[k] {
      WrappedSum(t, k, |pattern|);
    }
  }

  method FillRepeated(b: array<byte>, pattern: bytes)
    requires pattern != []
    modifies b
    ensures b[..] == Repeated(pattern, 0, b.Length)
  {
    hide *;
    var i := 0;
    Start(pattern);
    while i < b.Length
      invariant 0 <= i && Wrapped(i, |pattern|) == 0
      invariant i <= b.Length ==> b[..i] == Repeated(pattern, 0, i)
      invariant i > b.Length ==> b[..] == Repeated(pattern, 0, b.Length)
      decreases b.Length - i
    {
      var c := Copy(b, i, pattern);
      PieceOfPattern(pattern, i, c);
      RepeatedSplits(pattern, 0, i, c);
      assert i + c == b.Length ==> b[..i + c] == b[..];
      WrappedSum(i, |pattern|, |pattern|);
      WrapWhole(|pattern|);
      i := i + |pattern|;
    }
    assert i == b.Length ==> b[..i] == b[..];
  }

  lemma Start(pattern: bytes)
    requires pattern != []
    ensures Wrapped(0, |pattern|) == 0 && Repeated(pattern, 0, 0) == []
  {
  }

  lemma WrapWhole(n: nat)
    requires n > 0
    ensures Wrapped(0 + n, n) == 0
  {
  }

  class PatternFiller {
    const pattern: bytes
    const buf: array<byte>
    var pos: nat
    /** How many bytes have been read. */
    ghost var consumed: nat

    ghost predicate Valid()
      reads this, buf
    {
      && pattern != [] && buf.Length >= |pattern|
      && buf[..] == Repeated(pattern, 0, buf.Length)
      && pos == Wrapped(consumed, |pattern|)
    }

    constructor (pattern: bytes)
      requires pattern != []
      ensures Valid() && fresh(buf) && this.pattern == pattern && consumed == 0
    {
      var n := |pattern|;
      var blen := n;
      if n <= PATTERN_MAX_INIT_LEN {
        InitLength(n);
        blen := PATTERN_MAX_INIT_LEN / n * (n + 1);
      }
      var b := new byte[blen];
      FillRepeated(b, pattern);
      this.pattern := pattern;
      buf := b;
      pos, consumed := 0, 0;
    }

    /** Fills `p` with the next bytes of the stream. */
    method Read(p: array<byte>) returns (n: nat)
      requires Valid() && p != buf
      modifies this`pos, this`consumed, p
      ensures Valid() && n == p.Length && consumed == old(consumed) + n
      ensures p[..] == Repeated(pattern, old(consumed), p.Length)
    {
      var l := 0;
      while l < p.Length
        invariant 0 <= l <= p.Length
        invariant Valid() && consumed == old(consumed) + l
        invariant p[..l] == Repeated(pattern, old(consumed), l)
      {
        var c := if p.Length - l < buf.Length - pos then p.Length - l else buf.Length - pos;
        CopyOut(p, l, c);
        RepeatedSplits(pattern, old(consumed), l, c);
        WrappedSum(consumed, c, |pattern|);
        WrappedIsModulo(pos + c, |pattern|);
        l := l + c;
        pos := (pos + c) % |pattern|;
        consumed := consumed + c;
      }
      assert p[..l] == p[..];
      n := l;
    }

    /** Go's `copy(p[l:], f.buf[f.pos:])`, where `c` bytes are left to copy. */
    method CopyOut(p: array<byte>, l: nat, c: nat)
      requires Valid() && p != buf && l + c <= p.Length && pos + c <= buf.Length
      modifies p
      ensures p[..l + c] == old(p[..l]) + Repeated(pattern, consumed, c)
    {
      CopiedPiece(c);
      forall k | l <= k < l + c {
        p[k] := buf[pos + (k - l)];
      }
      assert p[..l] == old(p[..l]);
      var piece, source := p[l..l + c], buf[pos..pos + c];
      assert forall k :: 0 <= k < c ==> piece[k] == p[l + k] == source[k];
      assert piece == source;
      assert p[..l + c] == p[..l] + p[l..l + c];
    }

    /** A piece of the buffer is the next piece of the stream. */
    lemma CopiedPiece(c: nat)
      requires Valid() && pos + c <= buf.Length
      ensures buf[pos..pos + c] == Repeated(pattern, consumed, c)
    {
      var whole := Repeated(pattern, 0, buf.Length);
      forall k | 0 <= k < c ensures buf[..][pos + k] == Repeated(pattern, consumed, c)[k] {
        assert buf[..][pos + k] == whole[pos + k];
        WrappedSum(consumed, k, |pattern|);
      }
    }
  }
}
