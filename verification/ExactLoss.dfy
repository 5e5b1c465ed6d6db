/** When the loss classification is exact. */
module ExactLoss {
  import opened Config
  import opened Losses
  import opened Network
  import opened Numbers
  import opened Recording
  import opened RecorderRuns
  import opened ServerConn
  import opened Times
  import opened Window

  /** A window stamped with seqno `last` has a bit for the earlier seqno `x`. */
  predicate Reaches(last: int, x: int) { x < last <= x + 63 }

  /** When the `n`-th request was accepted, seqnos had fallen since `x`, which its window reaches, was accepted; or
      `x` was accepted only later. */
  ghost predicate Misses(h: seq<u32>, size: nat, n: nat, x: u32)
    requires 0 < n <= |h|
  {
    h[n - 1] < size && x in h && Reaches(h[n - 1], x) && !HeldSince(h[..n], x)
  }

  /** The condition on the order in which requests were accepted, of which the replies to the first `m` may be
      heard: none of these misses any. */
  ghost predicate Settled(h: seq<u32>, m: nat, size: nat)
    requires m <= |h|
  {
    forall n: nat, x: u32 :: 0 < n <= m ==> !Misses(h, size, n, x)
  }

  /** Requests in order are settled. */
  lemma InOrderIsSettled(h: seq<u32>, m: nat, size: nat)
    requires InOrder(h) && m <= |h|
    ensures Settled(h, m, size)
  {
    forall n, x | 0 < n <= m && x in h && Reaches(h[n - 1], x) ensures HeldSince(h[..n], x) {
      var i :| 0 <= i < |h| && h[i] == x;
      assert h[..n][i] == x && InOrder(h[..n][i..]);
    }
  }

  /** What became of a packet, not by any window: whether a reply to it was heard, whether the server accepted
      it, and whether any of the next 63 was answered. */
  ghost function Fate(answered: set<int>, useWindow: bool, accepted: seq<u32>, j: nat): Lost {
    if j in answered then LostFalse
    else if !useWindow || !exists i :: i in answered && Reaches(i, j) then LostTrue
    else if j in accepted then LostDown
    else LostUp
  }

  ghost function AnsweredSet(rtds: seq<RoundTripData>): set<int> {
    set i | 0 <= i < |rtds| && rtds[i].ReplyReceived()
  }

  lemma StampBits(h: seq<u32>, m: nat, size: nat, i: nat, j: nat, window: u64)
    requires m <= |h| && StampedBy(h[..m], i, window) && Reaches(i, j) && i < size
    ensures Bit(window, 0)
    ensures Settled(h, m, size) ==> (Bit(window, i - j) <==> j in h)
  {
    hide Bit, HeldSince, Distance, WindowOf;
    var n :| 0 < n <= m && h[..m][n - 1] == i && WindowOf(h[..m][..n]) == window;
    assert h[..m][..n] == h[..n];
    LowBitSet(h[..n]);
    BitMeansHeld(h[..n], j);
    if HeldSince(h[..n], j) {
      HeldIsAccepted(h[..n], j);
    }
    assert !Settled(h, m, size) || !Misses(h, size, n, j);
    assert LastOf(h[..n]) == i;
    assert j in h[..n] ==> j in h;
  }

  lemma HeldIsAccepted(h: seq<u32>, x: u32)
    requires HeldSince(h, x)
    ensures x in h
  {
  }

  /** If the server's order was settled, each status is the packet's fate. */
  lemma StatusIsFate(rtds: seq<RoundTripData>, useWindow: bool, h: seq<u32>, m: nat, j: nat)
    requires m <= |h| && (useWindow ==> RecordsStamped(h[..m], rtds) && Settled(h, m, |rtds|))
    requires j < |rtds|
    ensures Status(rtds, useWindow, j) == Fate(AnsweredSet(rtds), useWindow, h, j)
  {
    if useWindow && j !in AnsweredSet(rtds) {
      forall i | 0 <= i < |rtds| && Reaches(i, j) && rtds[i].ReplyReceived()
        ensures Covers(rtds, i, j) && (Confirms(rtds, i, j) <==> j in h)
      {
        StampBits(h, m, |rtds|, i, j, rtds[i].receivedWindow);
      }
      assert (exists i :: 0 <= i < |rtds| && Covers(rtds, i, j))
        <==> exists i :: i in AnsweredSet(rtds) && Reaches(i, j) by {
        if i :| i in AnsweredSet(rtds) && Reaches(i, j) {
          assert Covers(rtds, i, j);
        }
        if i :| 0 <= i < |rtds| && Covers(rtds, i, j) {
          assert i in AnsweredSet(rtds);
        }
      }
    }
  }

  /** No accepted packet is classified `LostUp`. */
  ghost predicate LostUpSound(rtds: seq<RoundTripData>, h: seq<u32>) {
    forall j: nat :: j < |rtds| && Status(rtds, true, j) == LostUp ==> j !in h
  }

  /** The records when only packet `i` was answered. */
  ghost function OneAnswer(size: nat, i: nat, answer: RoundTripData): (rtds: seq<RoundTripData>)
    requires i < size && answer.ReplyReceived()
    ensures |rtds| == size && rtds[i] == answer
    ensures forall k :: 0 <= k < size ==> (rtds[k].ReplyReceived() <==> k == i)
  {
    var none := Unanswered(ZERO_TIME);
    assert !none.ReplyReceived();
    seq(i, _ => none) + [answer] + seq(size - i - 1, _ => none)
  }

  /** An accepted packet that the window of a later one has not held is classified `LostUp`, if only the later
      one is answered. */
  lemma UnheldIsLostUp(rtds: seq<RoundTripData>, past: seq<u32>, i: nat, j: nat)
    requires past != [] && LastOf(past) == i < |rtds| && Reaches(i, j)
    requires forall k :: 0 <= k < |rtds| ==> (rtds[k].ReplyReceived() <==> k == i)
    requires rtds[i].receivedWindow == WindowOf(past) && !HeldSince(past, j)
    ensures Status(rtds, true, j) == LostUp
  {
    BitMeansHeld(past, j);
    LowBitSet(past);
    assert Covers(rtds, i, j);
  }

  /** For every order in which a server accepts requests: `LostUp` is right for all records that it may have
      stamped exactly if the order was settled. */
  lemma LostUpSoundExactly(h: seq<u32>, m: nat, size: nat)
    requires m <= |h|
    ensures (forall rtds :: |rtds| == size && RecordsStamped(h[..m], rtds) ==> LostUpSound(rtds, h))
       <==> Settled(h, m, size)
  {
    if Settled(h, m, size) {
      forall rtds | |rtds| == size && RecordsStamped(h[..m], rtds) ensures LostUpSound(rtds, h) {
        forall j: nat | j < |rtds| ensures Status(rtds, true, j) == LostUp ==> j !in h {
          StatusIsFate(rtds, true, h, m, j);
        }
      }
    } else {
      var n: nat, x: u32 :| 0 < n <= m && Misses(h, size, n, x);
      hide Misses, Settled, LostUpSound, RecordsStamped;
      var rtds := WrongRecords(h, m, size, n, x);
    }
  }

  /** Records in which `x` is wrong. */
  lemma WrongRecords(h: seq<u32>, m: nat, size: nat, n: nat, x: u32) returns (rtds: seq<RoundTripData>)
    requires 0 < n <= m <= |h| && Misses(h, size, n, x)
    ensures |rtds| == size && RecordsStamped(h[..m], rtds) && !LostUpSound(rtds, h)
  {
    var t := Time(1, 1);
    var answer := Unanswered(t).(client := Timestamp(t, t), receivedWindow := WindowOf(h[..n]));
    rtds := OneAnswer(size, h[n - 1], answer);
    hide OneAnswer, WindowOf, HeldSince, Status;
    assert LastOf(h[..n]) == h[n - 1];
    UnheldIsLostUp(rtds, h[..n], h[n - 1], x);
    assert h[..m][..n] == h[..n] && h[..m][n - 1] == h[n - 1];
    assert StampedBy(h[..m], h[n - 1], WindowOf(h[..n]));
  }

  /** The packets to which the client heard a reply. */
  ghost function HeardSet(delivered: seq<ReplyPacket>, size: nat): set<int> {
    set i | 0 <= i < size && Heard(delivered, i)
  }

  ghost predicate SettledRun(setup: Setup, net: Net) {
    setup.UsesWindow() ==>
      SettledArrivals(setup.cfg, net.arrivals, |net.client.st.roundTripData|)
  }

  /** The order in which these requests are accepted is settled. */
  ghost predicate SettledArrivals(cfg: ServerConfig, arrivals: seq<Arrival>, size: nat) {
    TimelyIsPrefix(cfg, arrivals);
    Settled(AcceptedSeqnos(cfg, arrivals), |TimelySeqnos(cfg, arrivals)|, size)
  }

  /** In every run in which the server's order was settled, each status is the packet's fate: `LostFalse` if the
      client heard a reply to it; else `LostTrue` if it heard none to the next 63; else `LostDown` if the server
      accepted it, and `LostUp` if it never did. */
  lemma SettledIsExact(setup: Setup, steps: seq<NetStep>, net: Net, j: nat)
    requires Run(setup, steps) == Some(net) && j < |net.client.st.roundTripData| && SettledRun(setup, net)
    ensures var heard := HeardSet(net.delivered, |net.client.st.roundTripData|);
            StatusIn(setup, net, j) == Fate(heard, setup.UsesWindow(), Accepted(setup, net), j)
  {
    RunKeepsInv(setup, steps);
    var rtds := net.client.st.roundTripData;
    TimelyIsPrefix(setup.cfg, net.arrivals);
    StatusIsFate(rtds, setup.UsesWindow(), Accepted(setup, net), |Timely(setup, net)|, j);
    assert AnsweredSet(rtds) == HeardSet(net.delivered, |rtds|);
  }

  /** In particular when requests are accepted in nondecreasing order. */
  lemma InOrderIsExact(setup: Setup, steps: seq<NetStep>, net: Net, j: nat)
    requires Run(setup, steps) == Some(net) && j < |net.client.st.roundTripData|
    requires InOrder(Accepted(setup, net))
    ensures var heard := HeardSet(net.delivered, |net.client.st.roundTripData|);
            StatusIn(setup, net, j) == Fate(heard, setup.UsesWindow(), Accepted(setup, net), j)
  {
    TimelyIsPrefix(setup.cfg, net.arrivals);
    InOrderIsSettled(Accepted(setup, net), |Timely(setup, net)|, |net.client.st.roundTripData|);
    SettledIsExact(setup, steps, net, j);
  }
}
