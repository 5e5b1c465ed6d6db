/** Fields side by side in a byte buffer, each of them either absent or of its full capacity. */
module Layout {
  import opened Numbers

  datatype Field = Field(pos: nat, len: nat, cap: nat)

  /** How long field `i` is when the fields `on` are set. */
  function Width(caps: seq<nat>, on: set<nat>, i: nat): nat
    requires i < |caps|
  {
    if i in on then caps[i] else 0
  }

  /** The sum of the lengths of the fields before `i`. */
  function Offset(caps: seq<nat>, on: set<nat>, i: nat): nat
    requires i <= |caps|
  {
    if i == 0 then 0 else Offset(caps, on, i - 1) + Width(caps, on, i - 1)
  }

  function End(caps: seq<nat>, on: set<nat>): nat { Offset(caps, on, |caps|) }

  function CapSum(caps: seq<nat>, i: nat): nat
    requires i <= |caps|
  {
    if i == 0 then 0 else CapSum(caps, i - 1) + caps[i - 1]
  }

  function FieldOf(caps: seq<nat>, on: set<nat>, i: nat): Field
    requires i < |caps|
  {
    Field(Offset(caps, on, i), Width(caps, on, i), caps[i])
  }

  lemma {:induction false} OffsetMonotone(caps: seq<nat>, on: set<nat>, i: nat, j: nat)
    requires i <= j <= |caps|
    ensures Offset(caps, on, i) <= Offset(caps, on, j)
    ensures i < j ==> Offset(caps, on, i) + Width(caps, on, i) <= Offset(caps, on, j)
  {
    if i < j {
      OffsetMonotone(caps, on, i, j - 1);
    }
  }

  /** Where the fields end, and how much room is left for those that are not set. */
  lemma {:induction false} RoomFor(caps: seq<nat>, on: set<nat>, f: nat, i: nat)
    requires f < |caps| && f !in on && i <= |caps|
    ensures Offset(caps, on, i) + (if f < i then caps[f] else 0) <= CapSum(caps, i)
  {
    if i > 0 {
      RoomFor(caps, on, f, i - 1);
    }
  }

  lemma {:induction false} OffsetWithin(caps: seq<nat>, on: set<nat>, i: nat)
    requires i <= |caps|
    ensures Offset(caps, on, i) <= CapSum(caps, i) <= CapSum(caps, |caps|)
    decreases |caps| - i, i
  {
    if i < |caps| {
      OffsetWithin(caps, on, i + 1);
      OffsetWithinSelf(caps, on, i);
    } else {
      OffsetWithinSelf(caps, on, i);
    }
  }

  lemma {:induction false} OffsetWithinSelf(caps: seq<nat>, on: set<nat>, i: nat)
    requires i <= |caps|
    ensures Offset(caps, on, i) <= CapSum(caps, i)
  {
    if i > 0 {
      OffsetWithinSelf(caps, on, i - 1);
    }
  }

  /** Setting one more field moves those after it. */
  lemma {:induction false} OffsetWith(caps: seq<nat>, on: set<nat>, f: nat, i: nat)
    requires f < |caps| && f !in on && i <= |caps|
    ensures Offset(caps, on + {f}, i) == Offset(caps, on, i) + if f < i then caps[f] else 0
  {
    if i > 0 {
      OffsetWith(caps, on, f, i - 1);
    }
  }

  /** Removing a field moves back those after it. */
  lemma OffsetWithout(caps: seq<nat>, on: set<nat>, f: nat, i: nat)
    requires f < |caps| && f in on && i <= |caps|
    ensures Offset(caps, on, i) == Offset(caps, on - {f}, i) + if f < i then caps[f] else 0
  {
    OffsetWith(caps, on - {f}, f, i);
    assert on - {f} + {f} == on;
  }

  /** The bytes of field `i`. */
  function ValueAt(caps: seq<nat>, on: set<nat>, d: bytes, i: nat): bytes
    requires i < |caps| && CapSum(caps, |caps|) <= |d|
  {
    OffsetWithin(caps, on, i + 1);
    d[Offset(caps, on, i)..Offset(caps, on, i + 1)]
  }

  /** The bytes of all fields. A field that is not set has none. */
  function Values(caps: seq<nat>, on: set<nat>, d: bytes): (vs: seq<bytes>)
    requires CapSum(caps, |caps|) <= |d|
    ensures |vs| == |caps|
  {
    seq(|caps|, i requires 0 <= i < |caps| => ValueAt(caps, on, d, i))
  }

  predicate Fitting(caps: seq<nat>, on: set<nat>, vs: seq<bytes>) {
    |vs| == |caps| && forall i :: 0 <= i < |caps| ==> |vs[i]| == Width(caps, on, i)
  }

  lemma ValueWidth(caps: seq<nat>, on: set<nat>, d: bytes, i: nat)
    requires CapSum(caps, |caps|) <= |d| && i < |caps|
    ensures |ValueAt(caps, on, d, i)| == Width(caps, on, i)
  {
    OffsetWithin(caps, on, i + 1);
    assert Offset(caps, on, i + 1) == Offset(caps, on, i) + Width(caps, on, i);
  }

  lemma ValuesFit(caps: seq<nat>, on: set<nat>, d: bytes)
    requires CapSum(caps, |caps|) <= |d|
    ensures Fitting(caps, on, Values(caps, on, d))
  {
    hide ValueAt, Offset, Width, CapSum;
    forall i | 0 <= i < |caps| ensures |Values(caps, on, d)[i]| == Width(caps, on, i) {
      ValueWidth(caps, on, d, i);
    }
  }

  /** The fields printed one after the other. */
  function Flat(vs: seq<bytes>): bytes {
    if vs == [] then [] else Flat(vs[..|vs| - 1]) + vs[|vs| - 1]
  }

  lemma {:induction false} FlatPrefix(caps: seq<nat>, on: set<nat>, d: bytes, i: nat)
    requires CapSum(caps, |caps|) <= |d| && i <= |caps|
    ensures Offset(caps, on, i) <= |d|
    ensures Flat(Values(caps, on, d)[..i]) == d[..Offset(caps, on, i)]
  {
    OffsetWithin(caps, on, i);
    if i > 0 {
      FlatPrefix(caps, on, d, i - 1);
      var vs := Values(caps, on, d);
      var start, end := Offset(caps, on, i - 1), Offset(caps, on, i);
      assert vs[i - 1] == ValueAt(caps, on, d, i - 1);
      FlatStep(vs, i);
      hide Offset, Flat, Values;
      assert d[..start] + d[start..end] == d[..end];
    }
  }

  lemma FlatStep(vs: seq<bytes>, i: nat)
    requires 0 < i <= |vs|
    ensures Flat(vs[..i]) == Flat(vs[..i - 1]) + vs[i - 1]
  {
    assert vs[..i][..i - 1] == vs[..i - 1];
  }

  /** Printing what was parsed gives back the bytes of the fields. */
  lemma PrintParsed(caps: seq<nat>, on: set<nat>, d: bytes)
    requires CapSum(caps, |caps|) <= |d|
    ensures End(caps, on) <= |d| && Flat(Values(caps, on, d)) == d[..End(caps, on)]
  {
    FlatPrefix(caps, on, d, |caps|);
    var vs := Values(caps, on, d);
    assert vs[..|caps|] == vs;
  }

  lemma {:induction false} FlatLength(caps: seq<nat>, on: set<nat>, vs: seq<bytes>, i: nat)
    requires Fitting(caps, on, vs) && i <= |caps|
    ensures |Flat(vs[..i])| == Offset(caps, on, i)
  {
    if i > 0 {
      FlatLength(caps, on, vs, i - 1);
      FlatStep(vs, i);
    }
  }

  lemma {:induction false} FlatPart(caps: seq<nat>, on: set<nat>, vs: seq<bytes>, i: nat, j: nat)
    requires Fitting(caps, on, vs) && i < j <= |caps|
    ensures |Flat(vs[..j])| == Offset(caps, on, j) >= Offset(caps, on, i + 1)
    ensures Flat(vs[..j])[Offset(caps, on, i)..Offset(caps, on, i + 1)] == vs[i]
  {
    FlatLength(caps, on, vs, j);
    FlatLength(caps, on, vs, j - 1);
    FlatStep(vs, j);
    if i < j - 1 {
      FlatPart(caps, on, vs, i, j - 1);
    }
  }

  /** Parsing what was printed gives back the fields, whatever follows them. */
  lemma ParsePrinted(caps: seq<nat>, on: set<nat>, vs: seq<bytes>, d: bytes)
    requires Fitting(caps, on, vs) && CapSum(caps, |caps|) <= |d| && Flat(vs) <= d
    ensures Values(caps, on, d) == vs && |Flat(vs)| == End(caps, on)
  {
    assert vs[..|caps|] == vs;
    FlatLength(caps, on, vs, |caps|);
    forall i | 0 <= i < |caps| ensures ValueAt(caps, on, d, i) == vs[i] {
      FlatPart(caps, on, vs, i, |caps|);
    }
  }

  /** Only the part of the buffer that holds the fields matters to them. */
  lemma SameFieldBytes(caps: seq<nat>, on: set<nat>, d: bytes, d': bytes)
    requires CapSum(caps, |caps|) <= |d| && CapSum(caps, |caps|) <= |d'|
    ensures End(caps, on) <= |d| && End(caps, on) <= |d'|
    ensures d[..End(caps, on)] == d'[..End(caps, on)] ==> Values(caps, on, d) == Values(caps, on, d')
  {
    PrintParsed(caps, on, d);
    PrintParsed(caps, on, d');
    ValuesFit(caps, on, d);
    if d[..End(caps, on)] == d'[..End(caps, on)] {
      ParsePrinted(caps, on, Values(caps, on, d), d');
    }
  }

  // Changing the buffer

  /** `d` with `b` written at `p`. */
  function Written(d: bytes, p: nat, b: bytes): bytes
    requires p + |b| <= |d|
  {
    d[..p] + b + d[p + |b|..]
  }

  lemma WriteValue(caps: seq<nat>, on: set<nat>, d: bytes, f: nat, b: bytes)
    requires CapSum(caps, |caps|) <= |d| && f < |caps| && |b| == Width(caps, on, f)
    ensures Offset(caps, on, f) + |b| <= End(caps, on) <= |d|
    ensures var d' := Written(d, Offset(caps, on, f), b);
            Values(caps, on, d') == Values(caps, on, d)[f := b] && d'[End(caps, on)..] == d[End(caps, on)..]
  {
    OffsetWithin(caps, on, |caps|);
    OffsetMonotone(caps, on, f, |caps|);
    var p := Offset(caps, on, f);
    var d' := Written(d, p, b);
    WrittenPieces(d, p, b);
    hide Written;
    forall i | 0 <= i < |caps| ensures ValueAt(caps, on, d', i) == Values(caps, on, d)[f := b][i] {
      OffsetWithin(caps, on, i + 1);
      assert Offset(caps, on, i + 1) == Offset(caps, on, i) + Width(caps, on, i);
      if i < f {
        OffsetMonotone(caps, on, i, f);
      } else if i > f {
        OffsetMonotone(caps, on, f, i);
      }
      hide Offset;
      assert i != f ==> Values(caps, on, d)[i] == d[Offset(caps, on, i)..Offset(caps, on, i + 1)];
    }
  }

  lemma WrittenPieces(d: bytes, p: nat, b: bytes)
    requires p + |b| <= |d|
    ensures var w := Written(d, p, b);
            && |w| == |d| && w[p..p + |b|] == b
            && (forall i, j :: 0 <= i <= j <= p ==> w[i..j] == d[i..j])
            && (forall i, j :: p + |b| <= i <= j <= |d| ==> w[i..j] == d[i..j])
            && (forall i :: p + |b| <= i <= |d| ==> w[i..] == d[i..])
  {
  }

  /** `copy(buf[p + c:], buf[p:])` in a buffer of `blen + c` bytes. */
  function Grown(d: bytes, p: nat, c: nat, blen: nat): bytes
    requires p <= blen && blen + c <= |d|
  {
    d[..p + c] + d[p..blen] + d[blen + c..]
  }

  lemma GrownBefore(d: bytes, p: nat, c: nat, blen: nat, a: nat, b: nat)
    requires p <= blen && blen + c <= |d| && a <= b <= p + c
    ensures Grown(d, p, c, blen)[a..b] == d[a..b]
  {
  }

  lemma GrownAfter(d: bytes, p: nat, c: nat, blen: nat, a: nat, b: nat)
    requires p <= a <= b <= blen && blen + c <= |d|
    ensures Grown(d, p, c, blen)[a + c..b + c] == d[a..b]
  {
    var g := Grown(d, p, c, blen);
    assert forall k :: a <= k < b ==> g[k + c] == d[k];
  }

  /** Growing a field keeps every other field. It is filled with what was in its place before. */
  lemma GrowValues(caps: seq<nat>, on: set<nat>, d: bytes, f: nat, blen: nat)
    requires CapSum(caps, |caps|) <= |d| && f < |caps| && f !in on
    requires Offset(caps, on, f) <= End(caps, on) <= blen && blen + caps[f] <= |d|
    ensures Values(caps, on + {f}, Grown(d, Offset(caps, on, f), caps[f], blen))
         == Values(caps, on, d)[f := d[Offset(caps, on, f)..Offset(caps, on, f) + caps[f]]]
  {
    var g := Grown(d, Offset(caps, on, f), caps[f], blen);
    var placed := d[Offset(caps, on, f)..Offset(caps, on, f) + caps[f]];
    var vs, vs' := Values(caps, on, d), Values(caps, on + {f}, g);
    forall i | 0 <= i < |caps| ensures vs'[i] == if i == f then placed else vs[i] {
      GrowValue(caps, on, d, f, blen, i);
    }
    hide *;
    assert vs' == vs[f := placed];
  }

  /** Growing a field moves the payload. */
  lemma GrowPayload(caps: seq<nat>, on: set<nat>, d: bytes, f: nat, blen: nat)
    requires f < |caps| && f !in on
    requires End(caps, on) <= blen && blen + caps[f] <= |d|
    ensures Offset(caps, on, f) <= End(caps, on)
    ensures End(caps, on + {f}) == End(caps, on) + caps[f]
    ensures var g := Grown(d, Offset(caps, on, f), caps[f], blen);
            g[End(caps, on) + caps[f]..] == d[End(caps, on)..blen] + d[blen + caps[f]..]
  {
    OffsetMonotone(caps, on, f, |caps|);
    OffsetWith(caps, on, f, |caps|);
  }

  lemma GrowValue(caps: seq<nat>, on: set<nat>, d: bytes, f: nat, blen: nat, i: nat)
    requires CapSum(caps, |caps|) <= |d| && f < |caps| && f !in on && i < |caps|
    requires Offset(caps, on, f) <= End(caps, on) <= blen && blen + caps[f] <= |d|
    ensures var p, c := Offset(caps, on, f), caps[f];
            ValueAt(caps, on + {f}, Grown(d, p, c, blen), i) == if i == f then d[p..p + c] else ValueAt(caps, on, d, i)
  {
    hide *;
    var p, c, start, end := Offset(caps, on, f), caps[f], Offset(caps, on, i), Offset(caps, on, i + 1);
    var g := Grown(d, p, c, blen);
    GrownLength(d, p, c, blen);
    GrowOffsets(caps, on, f, i);
    ValueSlice(caps, on, d, i);
    ValueSlice(caps, on + {f}, g, i);
    if i < f {
      GrownBefore(d, p, c, blen, start, end);
    } else if i == f {
      GrownBefore(d, p, c, blen, p, p + c);
    } else {
      GrownAfter(d, p, c, blen, start, end);
    }
  }

  lemma ValueSlice(caps: seq<nat>, on: set<nat>, d: bytes, i: nat)
    requires i < |caps| && CapSum(caps, |caps|) <= |d|
    ensures Offset(caps, on, i) <= Offset(caps, on, i + 1) <= |d|
    ensures ValueAt(caps, on, d, i) == d[Offset(caps, on, i)..Offset(caps, on, i + 1)]
  {
    OffsetWithin(caps, on, i + 1);
  }

  lemma GrownLength(d: bytes, p: nat, c: nat, blen: nat)
    requires p <= blen && blen + c <= |d|
    ensures |Grown(d, p, c, blen)| == |d|
  {
  }

  lemma GrowOffsets(caps: seq<nat>, on: set<nat>, f: nat, i: nat)
    requires f < |caps| && f !in on && i < |caps|
    ensures var start, end := Offset(caps, on, i), Offset(caps, on, i + 1);
            var start', end' := Offset(caps, on + {f}, i), Offset(caps, on + {f}, i + 1);
            && start <= end <= End(caps, on) && Offset(caps, on, f) <= End(caps, on)
            && (i < f ==> start' == start && end' == end <= Offset(caps, on, f))
            && (i == f ==> start' == start == end && end' == start + caps[f])
            && (i > f ==> start' == start + caps[f] && end' == end + caps[f] && start >= Offset(caps, on, f))
  {
    OffsetWith(caps, on, f, i);
    OffsetWith(caps, on, f, i + 1);
    OffsetMonotone(caps, on, i + 1, |caps|);
    OffsetMonotone(caps, on, f, |caps|);
    if i < f {
      OffsetMonotone(caps, on, i, f);
    } else if i > f {
      OffsetMonotone(caps, on, f, i);
    }
  }

  /** `copy(buf[p - c:], buf[p:])`, once the buffer is `c` bytes shorter. */
  function Shrunk(d: bytes, p: nat, c: nat, blen: nat): bytes
    requires c <= p && p + c <= blen <= |d|
  {
    d[..p - c] + d[p..blen - c] + d[blen - 2 * c..]
  }

  /** Shrinking takes out the right bytes of every buffer exactly when nothing follows the field. The packets of
      this model never shrink a field that is set. */
  lemma ShrinkKeepsExactly(p: nat, c: nat, blen: nat)
    requires 0 < c <= p && p + c <= blen
    ensures (forall d: bytes :: |d| == blen ==> ShrinkKeeps(d, p, c)) <==> p + c == blen
  {
    if p + c < blen {
      var d := seq(blen, i => if i == p then 1 else 0);
      assert Shrunk(d, p, c, blen)[p - c] == 1;
      assert (d[..p] + d[p + c..])[p - c] == 0;
      assert Shrunk(d, p, c, blen)[..blen - c][p - c] == 1;
      assert !ShrinkKeeps(d, p, c);
    } else {
      forall d: bytes | |d| == blen ensures ShrinkKeeps(d, p, c) {
        assert Shrunk(d, p, c, blen)[..p] == d[..p];
      }
    }
  }

  /** The bytes of the field at `p`, and no others, are gone. */
  predicate ShrinkKeeps(d: bytes, p: nat, c: nat)
    requires 0 < c <= p && p + c <= |d|
  {
    Shrunk(d, p, c, |d|)[..|d| - c] == d[..p] + d[p + c..]
  }

  // Room

  /** The length of a buffer of `blen` bytes, which is to have `tlen`, once field `f` is set. */
  function BlenAfter(caps: seq<nat>, on: set<nat>, blen: int, tlen: int, f: nat): int
    requires f < |caps|
  {
    if f in on then blen
    else if tlen >= End(caps, on) + caps[f] then tlen else blen + caps[f]
  }

  /** Setting field `f` does not overrun a buffer of `cap` bytes. */
  predicate RoomToSet(caps: seq<nat>, on: set<nat>, blen: int, tlen: int, cap: int, f: nat) {
    f < |caps| && (f !in on ==> blen + caps[f] <= cap && BlenAfter(caps, on, blen, tlen, f) <= cap)
  }

  /** Nor does setting the fields `fs`, one after the other. */
  predicate RoomToSetAll(caps: seq<nat>, on: set<nat>, blen: int, tlen: int, cap: int, fs: seq<nat>)
    decreases |fs|
  {
    fs == [] ||
    (RoomToSet(caps, on, blen, tlen, cap, fs[0]) &&
     RoomToSetAll(caps, on + {fs[0]}, BlenAfter(caps, on, blen, tlen, fs[0]), tlen, cap, fs[1..]))
  }

  lemma RoomForFirst(caps: seq<nat>, on: set<nat>, blen: int, tlen: int, cap: int, f: nat, rest: seq<nat>)
    requires RoomToSetAll(caps, on, blen, tlen, cap, [f] + rest)
    ensures RoomToSet(caps, on, blen, tlen, cap, f)
    ensures RoomToSetAll(caps, on + {f}, BlenAfter(caps, on, blen, tlen, f), tlen, cap, rest)
  {
    assert ([f] + rest)[1..] == rest;
  }
}
