/** Loss classification after a test, from the received windows of the replies. */
module Losses {
  import opened Numbers
  import opened Recording
  import opened Window

  datatype Lost = LostTrue | LostDown | LostUp | LostFalse

  /** Reply `i` carries a usable window that covers the earlier packet `j`. */
  predicate Covers(rtds: seq<RoundTripData>, i: int, j: int)
    requires 0 <= j && i < |rtds|
  {
    j < i <= j + 63 && rtds[i].ReplyReceived() && Bit(rtds[i].receivedWindow, 0)
  }

  /** The window of reply `i` says that the server had received packet `j`. */
  predicate Confirms(rtds: seq<RoundTripData>, i: int, j: int)
    requires 0 <= j && i < |rtds|
  {
    Covers(rtds, i, j) && Bit(rtds[i].receivedWindow, i - j)
  }

  /** The status of packet `j`, whatever the order in which the first `n` replies are considered. */
  ghost function StatusBy(rtds: seq<RoundTripData>, useWindow: bool, n: nat, j: nat): Lost
    requires j < |rtds| && n <= |rtds|
  {
    if j < n && rtds[j].ReplyReceived() then LostFalse
    else if useWindow && exists i :: 0 <= i < n && Confirms(rtds, i, j) then LostDown
    else if useWindow && exists i :: 0 <= i < n && Covers(rtds, i, j) then LostUp
    else LostTrue
  }

  ghost function Status(rtds: seq<RoundTripData>, useWindow: bool, j: nat): Lost
    requires j < |rtds|
  {
    StatusBy(rtds, useWindow, |rtds|, j)
  }

  /** What one window's bit makes of a status. */
  function Amended(lost: Lost, received: bool): Lost {
    if lost == LostFalse then LostFalse
    else if received || lost == LostDown then LostDown
    else LostUp
  }

  lemma StatusStep(rtds: seq<RoundTripData>, useWindow: bool, i: nat, j: nat)
    requires i < |rtds| && j < |rtds|
    ensures StatusBy(rtds, useWindow, i + 1, j)
         == if j == i && rtds[i].ReplyReceived() then LostFalse
            else if useWindow && Covers(rtds, i, j)
            then Amended(StatusBy(rtds, useWindow, i, j), Bit(rtds[i].receivedWindow, i - j))
            else StatusBy(rtds, useWindow, i, j)
  {
    if useWindow {
      assert (exists k :: 0 <= k < i + 1 && Confirms(rtds, k, j)) <==>
             (exists k :: 0 <= k < i && Confirms(rtds, k, j)) || Confirms(rtds, i, j);
      assert (exists k :: 0 <= k < i + 1 && Covers(rtds, k, j)) <==>
             (exists k :: 0 <= k < i && Covers(rtds, k, j)) || Covers(rtds, i, j);
    }
  }

  method ClassifyLosses(rtds: seq<RoundTripData>, useWindow: bool) returns (lost: array<Lost>)
    ensures lost.Length == |rtds|
    ensures forall j :: 0 <= j < |rtds| ==> lost[j] == Status(rtds, useWindow, j)
  {
    lost := new Lost[|rtds|](_ => LostTrue);
    for i := 0 to |rtds|
      invariant forall j :: 0 <= j < |rtds| ==> lost[j] == StatusBy(rtds, useWindow, i, j)
    {
      if rtds[i].ReplyReceived() {
        lost[i] := LostFalse;
        var rwin := rtds[i].receivedWindow;
        if useWindow && rwin % 2 != 0 {
          AmendEarlier(lost, i, rwin);
        }
      }
      forall j | 0 <= j < |rtds| ensures lost[j] == StatusBy(rtds, useWindow, i + 1, j) {
        StatusStep(rtds, useWindow, i, j);
      }
    }
  }

  ghost function ShiftRight(w: nat, n: nat): nat {
    if n == 0 then w else ShiftRight(w, n - 1) / 2
  }

  lemma {:induction false} BitOfShiftRight(w: nat, n: nat, k: nat)
    ensures Bit(ShiftRight(w, n), k) == Bit(w, n + k)
  {
    if n > 0 {
      BitOfShiftRight(w, n - 1, k + 1);
    }
  }

  /** Applies the window of reply `i` to the 63 packets before it. */
  method AmendEarlier(lost: array<Lost>, i: nat, window: u64)
    requires i < lost.Length
    modifies lost
    ensures forall j :: 0 <= j < lost.Length ==>
              lost[j] == if i - 63 <= j < i then Amended(old(lost[j]), Bit(window, i - j)) else old(lost[j])
  {
    var rwin: nat := window / 2;
    var wend := if i < 63 then 0 else i - 63;
    var j := i - 1;
    while j >= wend
      invariant wend - 1 <= j < i
      invariant rwin == ShiftRight(window, i - j)
      invariant forall k :: 0 <= k < lost.Length ==>
                  lost[k] == if j < k < i then Amended(old(lost[k]), Bit(window, i - k)) else old(lost[k])
    {
      BitOfShiftRight(window, i - j, 0);
      var rcvd := rwin % 2 != 0;
      if rcvd {
        if lost[j] != LostFalse {
          lost[j] := LostDown;
        }
      } else if lost[j] == LostTrue || lost[j] == LostUp {
        lost[j] := LostUp;
      }
      rwin := rwin / 2;
      j := j - 1;
    }
  }
}
