/** The packet buffer: fields that may be absent, followed by a payload. */
module Fbufs {
  import opened Layout
  import opened Numbers

  datatype FbufError = FieldsLengthTooLarge | FieldsCapacityTooLarge

  /** The fields that `setFields` and `addFields` select: it takes indexes for as long as they increase and are
      in range, and ignores the rest. */
  function Selected(fidxs: seq<int>, from: nat, n: nat): (r: set<nat>) {
    if fidxs == [] || fidxs[0] < from || fidxs[0] >= n then {}
    else {fidxs[0]} + Selected(fidxs[1..], fidxs[0] + 1, n)
  }

  lemma {:induction false} SelectedRange(fidxs: seq<int>, from: nat, n: nat)
    ensures forall k :: k in Selected(fidxs, from, n) ==> from <= k < n && fidxs != [] && fidxs[0] <= k
  {
    if fidxs != [] && from <= fidxs[0] < n {
      SelectedRange(fidxs[1..], fidxs[0] + 1, n);
    }
  }

  /** Increasing indexes in range are all selected, and nothing else. */
  lemma {:induction false} SelectedIncreasing(fidxs: seq<int>, from: nat, n: nat)
    requires forall i :: 0 <= i < |fidxs| ==> from <= fidxs[i] < n
    requires forall i :: 0 < i < |fidxs| ==> fidxs[i - 1] < fidxs[i]
    ensures forall k :: k in Selected(fidxs, from, n) <==> k in fidxs
  {
    if fidxs != [] {
      var rest := fidxs[1..];
      assert forall i :: 0 < i < |rest| ==> rest[i - 1] == fidxs[i] && rest[i] == fidxs[i + 1];
      AllAbove(fidxs);
      SelectedIncreasing(rest, fidxs[0] + 1, n);
      assert forall k :: k in fidxs <==> k == fidxs[0] || k in rest;
    }
  }

  lemma {:induction false} AllAbove(fidxs: seq<int>)
    requires forall i :: 0 < i < |fidxs| ==> fidxs[i - 1] < fidxs[i]
    ensures forall i :: 0 < i < |fidxs| ==> fidxs[0] < fidxs[i]
  {
    if |fidxs| > 1 {
      var init := fidxs[..|fidxs| - 1];
      assert forall i :: 0 < i < |init| ==> init[i - 1] < init[i];
      AllAbove(init);
      assert |init| > 1 ==> init[|init| - 1] == fidxs[|fidxs| - 2];
    }
  }

  /** From index `j` on, `selected` is what remains to be selected by `rest`. */
  ghost predicate Ahead(selected: set<nat>, rest: seq<int>, j: nat, n: nat) {
    forall k :: j <= k < n ==> (k in selected <==> k in Selected(rest, j, n))
  }

  lemma NothingPassed(fidxs: seq<int>, n: nat)
    ensures Ahead(Selected(fidxs, 0, n), fidxs, 0, n)
  {
  }

  lemma AheadSkip(selected: set<nat>, rest: seq<int>, j: nat, n: nat)
    requires Ahead(selected, rest, j, n) && j < n && (rest == [] || rest[0] != j)
    ensures j !in selected && Ahead(selected, rest, j + 1, n)
  {
    SelectedRange(rest, j, n);
  }

  lemma AheadTake(selected: set<nat>, rest: seq<int>, j: nat, n: nat)
    requires Ahead(selected, rest, j, n) && rest != [] && (j < n ==> rest[0] == j)
    ensures j < n ==> j in selected
    ensures Ahead(selected, rest[1..], j + 1, n)
  {
  }

  lemma NothingSet(caps: seq<nat>)
    ensures End(caps, {}) == 0 && forall i :: 0 <= i < |caps| ==> FieldOf(caps, {}, i) == Field(0, 0, caps[i])
  {
    forall i | 0 <= i <= |caps| ensures Offset(caps, {}, i) == 0 {
      NoOffset(caps, i);
    }
  }

  lemma {:induction false} NoOffset(caps: seq<nat>, i: nat)
    requires i <= |caps|
    ensures Offset(caps, {}, i) == 0
  {
    if i > 0 {
      NoOffset(caps, i - 1);
    }
  }

  class Fbuf {
    const data: array<byte>
    ghost const caps: seq<nat>
    var blen: nat
    var fields: seq<Field>
    var tlen: int
    /** The fields that are set. */
    ghost var on: set<nat>

    /** A buffer with none of its fields set. */
    constructor (caps: seq<nat>, tlen: nat, cap: nat)
      requires forall i :: 0 <= i < |caps| ==> caps[i] > 0
      requires tlen <= cap || tlen <= CapSum(caps, |caps|)
      ensures Valid() && Fits() && this.caps == caps && on == {} && this.tlen == blen == tlen
      ensures forall k :: 0 <= k < data.Length ==> data[k] == 0
      ensures fresh(data) && data.Length == if CapSum(caps, |caps|) > cap then CapSum(caps, |caps|) else cap
    {
      var fcap := 0;
      for i := 0 to |caps|
        invariant fcap == CapSum(caps, i)
      {
        fcap := fcap + caps[i];
      }
      data := new byte[if fcap > cap then fcap else cap](_ => 0);
      this.caps := caps;
      blen, this.tlen := tlen, tlen;
      fields := seq(|caps|, i requires 0 <= i < |caps| => Field(0, 0, caps[i]));
      on := {};
      NothingSet(caps);
    }

    ghost predicate Valid()
      reads this
    {
      && |fields| == |caps| && CapSum(caps, |caps|) <= data.Length && blen <= data.Length
      && (forall i :: 0 <= i < |caps| ==> caps[i] > 0 && fields[i] == FieldOf(caps, on, i))
    }

    ghost function Flen(): nat
      reads this
    {
      End(caps, on)
    }

    ghost predicate Fits()
      reads this
    {
      Flen() <= blen
    }

    ghost function Vals(): seq<bytes>
      reads this, data
      requires Valid()
    {
      Values(caps, on, data[..])
    }

    ghost function Contents(): bytes
      reads this, data
      requires Valid()
    {
      data[..][..blen]
    }

    ghost function Payload(): bytes
      reads this, data
      requires Valid() && Fits()
    {
      data[..][Flen()..blen]
    }

    /** The buffer is its fields, printed one after the other, and the payload. */
    lemma ContentsPrinted()
      requires Valid() && Fits()
      ensures Contents() == Flat(Vals()) + Payload()
    {
      hide Flat, Values, Offset, CapSum, FieldOf;
      PrintParsed(caps, on, data[..]);
    }

    // Getters

    function Get(f: nat): (b: bytes)
      reads this, data
      requires Valid() && f < |caps|
      ensures b == Vals()[f]
    {
      OffsetWithin(caps, on, f + 1);
      assert Offset(caps, on, f + 1) == Offset(caps, on, f) + Width(caps, on, f);
      assert Vals()[f] == ValueAt(caps, on, data[..], f);
      data[fields[f].pos..fields[f].pos + fields[f].len]
    }

    function IsSet(f: nat): (r: bool)
      reads this
      requires Valid() && f < |caps|
      ensures r <==> f in on
    {
      fields[f].len > 0
    }

    method SumLens() returns (flen: nat)
      requires Valid()
      ensures flen == Flen()
    {
      flen := 0;
      for i := 0 to |fields|
        invariant flen == Offset(caps, on, i)
      {
        flen := flen + fields[i].len;
      }
    }

    method SumFields() returns (flen: nat, fcap: nat)
      requires Valid()
      ensures flen == Flen() && fcap == CapSum(caps, |caps|)
    {
      flen, fcap := 0, 0;
      for i := 0 to |fields|
        invariant flen == Offset(caps, on, i) && fcap == CapSum(caps, i)
      {
        flen, fcap := flen + fields[i].len, fcap + fields[i].cap;
      }
    }

    /** The capacities always fit. */
    method Validate() returns (err: Option<FbufError>)
      requires Valid()
      ensures err == if Fits() then None else Some(FieldsLengthTooLarge)
    {
      var flen, fcap := SumFields();
      return if flen > blen then Some(FieldsLengthTooLarge)
             else if fcap > data.Length then Some(FieldsCapacityTooLarge)
             else None;
    }

    // Layout

    method SetLen(tlen: int) returns (l: nat)
      requires Valid()
      modifies this`blen, this`tlen
      ensures Valid() && Fits() && this.tlen == tlen
      ensures l == blen == if tlen <= Flen() then Flen() else if tlen > data.Length then data.Length else tlen
    {
      this.tlen := tlen;
      var flen := SumLens();
      OffsetWithin(caps, on, |caps|);
      l := if tlen < flen then flen else tlen;
      if l > data.Length {
        l := data.Length;
      }
      blen := l;
    }

    /** The first `j` fields of `fs` are laid out for `target`, and the others are as before. */
    ghost predicate LaidTo(fs: seq<Field>, target: set<nat>, j: nat, pos: nat)
      reads this
    {
      && |fs| == |fields| == |caps|
      && (forall k :: 0 <= k < j && k < |caps| ==> fs[k] == FieldOf(caps, target, k))
      && (forall k :: j <= k < |caps| ==> fs[k] == fields[k])
      && pos == Offset(caps, target, if j < |caps| then j else |caps|)
    }

    lemma LaidStep(fs: seq<Field>, target: set<nat>, j: nat, pos: nat)
      requires Valid() && j < |caps| && LaidTo(fs, target, j, pos)
      ensures fs[j].cap == caps[j] && fs[j].len == Width(caps, on, j) && |fs| == |caps|
      ensures var len := Width(caps, target, j);
              LaidTo(fs[j := Field(pos, len, fs[j].cap)], target, j + 1, pos + len)
    {
    }

    lemma LaidBeyond(fs: seq<Field>, target: set<nat>, j: nat, pos: nat)
      requires LaidTo(fs, target, j, pos) && j >= |caps|
      ensures LaidTo(fs, target, j + 1, pos)
      ensures |fs| == |caps| && forall k :: 0 <= k < |caps| ==> fs[k] == FieldOf(caps, target, k)
    {
    }

    /** Lays out field `j`, which is selected if `take`, and otherwise cleared unless they `keep` it. */
    method Place(fs: seq<Field>, j: nat, pos: nat, take: bool, keep: bool, ghost target: set<nat>)
      returns (fs': seq<Field>, pos': nat)
      requires Valid() && j < |fs| == |caps| && LaidTo(fs, target, j, pos)
      requires j in target <==> take || (keep && j in on)
      ensures |fs'| == |caps| && LaidTo(fs', target, j + 1, pos')
    {
      LaidStep(fs, target, j, pos);
      var len := if take then fs[j].cap else if keep then fs[j].len else 0;
      fs', pos' := fs[j := Field(pos, len, fs[j].cap)], pos + len;
    }

    /** Passes over fields up to `stop`, or all of them. */
    method Pass(fs0: seq<Field>, j0: nat, pos0: nat, stop: int, keep: bool,
                ghost target: set<nat>, ghost selected: set<nat>, ghost rest: seq<int>)
      returns (fs: seq<Field>, j: nat, pos: nat)
      requires Valid() && |fs0| == |caps| && LaidTo(fs0, target, j0, pos0)
      requires Ahead(selected, rest, j0, |caps|) && (rest == [] || rest[0] == stop)
      requires rest == [] ==> stop < 0
      requires forall k :: k in target <==> k in selected || (keep && k in on)
      ensures |fs| == |caps| && LaidTo(fs, target, j, pos) && Ahead(selected, rest, j, |caps|)
      ensures j < |caps| ==> j == stop
    {
      fs, j, pos := fs0, j0, pos0;
      hide *;
      while j < |fs| && j != stop
        invariant |fs| == |caps| && LaidTo(fs, target, j, pos) && Ahead(selected, rest, j, |caps|)
      {
        AheadSkip(selected, rest, j, |caps|);
        fs, pos := Place(fs, j, pos, false, keep, target);
        j := j + 1;
      }
    }

    /** The loops of `setFields` and `addFields`, which `keep` the fields that are not selected. */
    method LaidOut(fidxs: seq<int>, keep: bool) returns (fs: seq<Field>, ghost target: set<nat>)
      requires Valid()
      ensures target == Selected(fidxs, 0, |caps|) + if keep then on else {}
      ensures |fs| == |caps| && forall k :: 0 <= k < |caps| ==> fs[k] == FieldOf(caps, target, k)
    {
      ghost var selected := Selected(fidxs, 0, |caps|);
      target := selected + if keep then on else {};
      var n := |fields|;
      fs := fields;
      var pos: nat, j: nat := 0, 0;
      NothingLaid(target);
      assert fidxs[0..] == fidxs && fidxs[|fidxs|..] == [];
      NothingPassed(fidxs, n);
      hide *;
      for i := 0 to |fidxs|
        invariant |fs| == n && LaidTo(fs, target, j, pos)
        invariant Ahead(selected, fidxs[i..], j, n)
      {
        ghost var rest := fidxs[i..];
        fs, j, pos := Pass(fs, j, pos, fidxs[i], keep, target, selected, rest);
        assert rest[1..] == fidxs[i + 1..];
        AheadTake(selected, rest, j, n);
        if j < n {
          fs, pos := Place(fs, j, pos, true, keep, target);
        } else {
          LaidBeyond(fs, target, j, pos);
        }
        j := j + 1;
      }
      fs, j, pos := Pass(fs, j, pos, -1, keep, target, selected, []);
      LaidBeyond(fs, target, j, pos);
    }

    lemma NothingLaid(target: set<nat>)
      requires Valid()
      ensures |fields| == |caps| && LaidTo(fields, target, 0, 0)
    {
    }

    method LayOut(fidxs: seq<int>, keep: bool)
      requires Valid()
      modifies this`fields, this`on
      ensures Valid()
      ensures on == Selected(fidxs, 0, |caps|) + if keep then old(on) else {}
    {
      fields, on := LaidOut(fidxs, keep);
    }

    method SetFields(fidxs: seq<int>, setLen: bool) returns (err: Option<FbufError>)
      requires Valid()
      modifies this
      ensures Valid() && on == Selected(fidxs, 0, |caps|)
      ensures if setLen then tlen == blen == Flen() else tlen == old(tlen) && blen == old(blen)
      ensures err.Some? <==> !Fits()
    {
      LayOut(fidxs, false);
      if setLen {
        var pos := SumLens();
        var l := SetLen(pos);
        OffsetWithin(caps, on, |caps|);
      }
      err := Validate();
    }

    method AddFields(fidxs: seq<int>, setLen: bool) returns (err: Option<FbufError>)
      requires Valid()
      modifies this
      ensures Valid() && on == Selected(fidxs, 0, |caps|) + old(on)
      ensures if setLen then tlen == blen == Flen() else tlen == old(tlen) && blen == old(blen)
      ensures err.Some? <==> !Fits()
    {
      LayOut(fidxs, true);
      if setLen {
        var pos := SumLens();
        var l := SetLen(pos);
        OffsetWithin(caps, on, |caps|);
      }
      err := Validate();
    }

    // Growing

    /** The length of the buffer once field `f` is set. */
    ghost function BlenWith(f: nat): int
      reads this
      requires f < |caps|
    {
      BlenAfter(caps, on, blen, tlen, f)
    }

    /** Setting field `f` does not overrun the buffer. */
    ghost predicate HasRoom(f: nat)
      reads this
    {
      RoomToSet(caps, on, blen, tlen, data.Length, f)
    }

    ghost predicate HasRoomAll(fs: seq<nat>)
      reads this
    {
      RoomToSetAll(caps, on, blen, tlen, data.Length, fs)
    }

    /** The payload once field `f` is set: what there was, cut to the target length or run on into the spare
        part of the buffer. */
    ghost function PayloadWith(f: nat): bytes
      reads this, data
      requires Valid() && Fits() && HasRoom(f)
    {
      if f in on then Payload() else (Payload() + data[..][blen + caps[f]..])[..BlenWith(f) - Flen() - caps[f]]
    }

    /** The payload is kept, up to being cut short or run on. */
    lemma PayloadKept(f: nat)
      requires Valid() && Fits() && HasRoom(f) && End(caps, on + {f}) <= BlenWith(f)
      ensures |PayloadWith(f)| == BlenWith(f) - End(caps, on + {f})
      ensures PayloadWith(f) <= Payload() || Payload() <= PayloadWith(f)
    {
      if f in on {
        assert on + {f} == on;
      } else {
        OffsetWith(caps, on, f, |caps|);
      }
    }

    /** `copy(buf[p + c:], buf[p:])`, once the buffer is `c` bytes longer. */
    method ShiftUp(p: nat, c: nat, ghost was: nat)
      requires p <= was && was + c == blen <= data.Length
      modifies data
      ensures data[..] == Grown(old(data[..]), p, c, was)
    {
      forall k | p + c <= k < blen {
        data[k] := data[k - c];
      }
      ghost var d, g := old(data[..]), Grown(old(data[..]), p, c, was);
      assert forall k :: 0 <= k < data.Length ==> data[k] == g[k];
    }

    /** Sets the length of field `f`, and moves those after it. */
    method Reposition(f: nat, newlen: nat)
      requires Valid() && f < |caps| && newlen == if f in on then 0 else caps[f]
      modifies this`fields, this`on
      ensures Valid() && on == if newlen == 0 then old(on) - {f} else old(on) + {f}
    {
      ghost var target := if newlen == 0 then on - {f} else on + {f};
      forall k | 0 <= k <= f ensures Offset(caps, target, k) == Offset(caps, on, k) {
        if newlen == 0 {
          OffsetWithout(caps, on, f, k);
        } else {
          OffsetWith(caps, on, f, k);
        }
      }
      var fs := fields[f := fields[f].(len := newlen)];
      var newp := fs[f].pos;
      for i := f to |fs|
        invariant |fs| == |caps|
        invariant newp == Offset(caps, target, i)
        invariant forall k :: 0 <= k < i ==> fs[k] == FieldOf(caps, target, k)
        invariant forall k :: i <= k < |fs| ==> fs[k].cap == caps[k] && fs[k].len == Width(caps, target, k)
      {
        fs := fs[i := fs[i].(pos := newp)];
        newp := newp + fs[i].len;
      }
      fields, on := fs, target;
    }

    /** `setFieldLen` for a field that is not set. */
    method Grow(f: nat)
      requires Valid() && Fits() && f !in on && HasRoom(f)
      modifies this`fields, this`on, this`blen, data
      ensures Valid() && Fits() && on == old(on) + {f} && blen == old(BlenWith(f))
      ensures Offset(caps, old(on), f) <= old(blen)
      ensures data[..] == Grown(old(data[..]), Offset(caps, old(on), f), caps[f], old(blen))
    {
      var p, c := fields[f].pos, fields[f].cap;
      OffsetMonotone(caps, on, f, |caps|);
      OffsetWith(caps, on, f, |caps|);
      blen := blen + c;
      ShiftUp(p, c, old(blen));
      Reposition(f, c);
      var flen := SumLens();
      if tlen >= flen {
        blen := tlen;
      }
    }

    /** Growing keeps every other field and the payload. */
    lemma GrowthKeeps(f: nat)
      requires Valid() && Fits() && f !in on && HasRoom(f)
      ensures Offset(caps, on, f) <= blen
      ensures var p, c, d := Offset(caps, on, f), caps[f], data[..];
              var d' := Grown(d, p, c, blen);
              && Values(caps, on + {f}, d') == Vals()[f := d[p..p + c]]
              && End(caps, on + {f}) == Flen() + c
              && d'[Flen() + c..] == Payload() + d[blen + c..]
    {
      hide Grown, Values, Offset, End, CapSum, FieldOf;
      GrowPayload(caps, on, data[..], f, blen);
      GrowValues(caps, on, data[..], f, blen);
    }

    method GrowField(f: nat)
      requires Valid() && Fits() && f !in on && HasRoom(f)
      modifies this`fields, this`on, this`blen, data
      ensures Valid() && Fits() && on == old(on) + {f} && blen == old(BlenWith(f))
      ensures Offset(caps, on, f) == Offset(caps, old(on), f)
      ensures Vals() == old(Vals())[f := Vals()[f]]
      ensures Payload() == old(PayloadWith(f))
    {
      hide Grown, Values, Offset, End, CapSum, FieldOf, Fbuf.Valid, Fbuf.Fits, RoomToSet, BlenAfter;
      GrowthKeeps(f);
      GrowthFits(f);
      OffsetWith(caps, on, f, f);
      Grow(f);
    }

    lemma GrowthFits(f: nat)
      requires Valid() && Fits() && f !in on && HasRoom(f)
      ensures f < |caps| && blen + caps[f] <= data.Length && Flen() + caps[f] <= BlenWith(f) <= data.Length
    {
    }

    /** Makes sure that field `f` is set, and says where it is. The other fields do not change. */
    method SetTo(f: nat) returns (p: nat)
      requires Valid() && Fits() && HasRoom(f)
      modifies this`fields, this`on, this`blen, data
      ensures Valid() && Fits() && on == old(on) + {f} && blen == old(BlenWith(f))
      ensures p == Offset(caps, on, f)
      ensures Vals() == old(Vals())[f := Vals()[f]]
      ensures Payload() == old(PayloadWith(f))
      ensures f in old(on) ==> data[..] == old(data[..])
    {
      hide *;
      FieldMeans(f);
      p := fields[f].pos;
      if fields[f].len != fields[f].cap {
        GrowField(f);
      } else {
        SetAlready(f);
      }
    }

    lemma FieldMeans(f: nat)
      requires Valid() && HasRoom(f)
      ensures f < |caps| == |fields| && fields[f].pos == Offset(caps, on, f) && fields[f].cap == caps[f]
      ensures fields[f].len == fields[f].cap <==> f in on
    {
    }

    lemma SetAlready(f: nat)
      requires Valid() && Fits() && HasRoom(f) && f in on
      ensures on + {f} == on && BlenWith(f) == blen && PayloadWith(f) == Payload()
      ensures Vals()[f := Vals()[f]] == Vals()
    {
    }

    /** Go's `copy(buf[p:p + len(b)], b)`. */
    method CopyIn(p: nat, b: bytes)
      requires p + |b| <= data.Length
      modifies data
      ensures data[..] == Written(old(data[..]), p, b)
    {
      forall k | p <= k < p + |b| {
        data[k] := b[k - p];
      }
      ghost var w := Written(old(data[..]), p, b);
      assert forall k :: 0 <= k < data.Length ==> data[k] == w[k];
    }

    /** Writing a field that is set. */
    lemma WriteKeeps(f: nat, b: bytes)
      requires Valid() && Fits() && f in on && f < |caps| && |b| == caps[f]
      ensures var p, d := Offset(caps, on, f), data[..];
              && p + |b| <= |d|
              && Values(caps, on, Written(d, p, b)) == Vals()[f := b]
              && Written(d, p, b)[Flen()..blen] == Payload()
    {
      hide Written, Values, Offset, End, CapSum, FieldOf;
      WriteValue(caps, on, data[..], f, b);
      var w := Written(data[..], Offset(caps, on, f), b);
      WrittenPieces(data[..], Offset(caps, on, f), b);
      assert w[Flen()..blen] == w[Flen()..][..blen - Flen()];
    }

    /** Sets field `f`. The other fields do not change. */
    method Set(f: nat, b: bytes)
      requires Valid() && Fits() && HasRoom(f) && |b| == caps[f]
      modifies this`fields, this`on, this`blen, data
      ensures Valid() && Fits() && on == old(on) + {f} && blen == old(BlenWith(f))
      ensures Vals() == old(Vals())[f := b]
      ensures Payload() == old(PayloadWith(f))
      ensures Offset(caps, on, f) + |b| <= data.Length
      ensures f in old(on) ==> data[..] == Written(old(data[..]), Offset(caps, on, f), b)
    {
      var p := SetTo(f);
      WriteKeeps(f, b);
      hide Offset, Written, Values, End, CapSum, PayloadWith, BlenAfter, FieldOf;
      CopyIn(p, b);
    }

    /** `set` of a field that is set already: nothing moves. */
    method Overwrite(f: nat, b: bytes)
      requires Valid() && Fits() && f in on && f < |caps| && |b| == caps[f]
      modifies data
      ensures Vals() == old(Vals())[f := b] && Payload() == old(Payload())
      ensures Offset(caps, on, f) + |b| <= data.Length
      ensures data[..] == Written(old(data[..]), Offset(caps, on, f), b)
    {
      WriteKeeps(f, b);
      CopyIn(fields[f].pos, b);
    }

    method SetPayload(b: bytes)
      requires Valid() && Fits() && Flen() + |b| <= data.Length
      modifies this`blen, data
      ensures Valid() && Fits() && Vals() == old(Vals())
      ensures Payload() == b && blen == Flen() + |b|
    {
      var flen := SumLens();
      blen := flen + |b|;
      CopyIn(flen, b);
      WrittenPieces(old(data[..]), flen, b);
      SameFieldBytes(caps, on, old(data[..]), data[..]);
      assert data[..][..flen] == old(data[..])[0..flen];
    }

    /** Takes a packet of `b`'s bytes from the network, as much of it as there is room for. */
    method ReadTo(b: bytes) returns (n: nat)
      requires Valid()
      modifies this`blen, data
      ensures Valid() && n == (if |b| <= data.Length then |b| else data.Length)
      ensures data[..][..n] == b[..n]
    {
      blen := data.Length;
      n := if |b| <= data.Length then |b| else data.Length;
      CopyIn(0, b[..n]);
      WrittenPieces(old(data[..]), 0, b[..n]);
    }

    // Shrinking

    /** `setFieldLen(f, 0)` for a field that is set. It panics unless the field lies between others. */
    method Shrink(f: nat)
      requires Valid() && Fits() && f < |caps| && f in on
      requires caps[f] <= Offset(caps, on, f) && Offset(caps, on, f) + caps[f] <= blen
      requires tlen <= data.Length
      modifies this`fields, this`on, this`blen, data
      ensures Valid() && on == old(on) - {f} && Flen() == old(Flen()) - caps[f]
      ensures blen == if tlen >= Flen() then tlen else old(blen) - caps[f]
      ensures data[..] == Shrunk(old(data[..]), Offset(caps, old(on), f), caps[f], old(blen))
    {
      var p, c := fields[f].pos, fields[f].cap;
      OffsetWithout(caps, on, f, |caps|);
      ShiftDown(p, c);
      blen := blen - c;
      Reposition(f, 0);
      var flen := SumLens();
      if tlen >= flen {
        blen := tlen;
      }
    }

    method ShiftDown(p: nat, c: nat)
      requires c <= p && p + c <= blen <= data.Length
      modifies data
      ensures data[..] == Shrunk(old(data[..]), p, c, blen)
    {
      forall k | p <= k < blen - c {
        data[k - c] := data[k];
      }
      ghost var d := Shrunk(old(data[..]), p, c, blen);
      assert forall k :: 0 <= k < data.Length ==> data[k] == d[k];
    }

    /** Removing a field that is not set does nothing. */
    method Remove(f: nat)
      requires Valid() && Fits() && f < |caps|
      requires f in on ==> caps[f] <= Offset(caps, on, f) && tlen <= data.Length
      modifies this`fields, this`on, this`blen, data
      ensures Valid() && on == old(on) - {f}
      ensures f !in old(on) ==> Vals() == old(Vals()) && blen == old(blen) && data[..] == old(data[..])
      ensures f in old(on) ==>
                && old(Offset(caps, on, f) + caps[f] <= blen)
                && data[..] == Shrunk(old(data[..]), Offset(caps, old(on), f), caps[f], old(blen))
    {
      if fields[f].len > 0 {
        OffsetMonotone(caps, on, f, |caps|);
        Shrink(f);
      } else {
        assert on - {f} == on;
      }
    }
  }
}
