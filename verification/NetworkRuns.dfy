/** Runs that show what can happen, and the exact reach of `LostUp` over all runs. */
module NetworkRuns {
  import opened Config
  import opened ExactLoss
  import opened Losses
  import opened Network
  import opened Numbers
  import opened Recording
  import opened RecorderRuns
  import opened ServerConn
  import opened Times
  import opened TokenBucket
  import opened Window

  const T: Time := Time(1, 1)

  lemma RunOneMore(setup: Setup, steps: seq<NetStep>, net: Net, step: NetStep)
    requires Run(setup, steps) == Some(net) && CanStep(setup, net, step)
    ensures Run(setup, steps + [step]) == Some(Next(setup, net, step))
  {
    assert (steps + [step])[..|steps|] == steps;
  }

  /** Ready to send the next packet, with every packet sent so far unanswered. */
  ghost predicate Quiet(net: Net, size: nat) {
    && net.client.phase == Idle && net.receiving && net.delivered == []
    && |net.client.st.roundTripData| == |net.client.st.sendCalls| == size
    && net.client.st.rtts == [] && net.client.st.duplicates == 0
    && (forall k :: 0 <= k < size ==> net.client.st.roundTripData[k] == Unanswered(T))
    && (forall s: u32 :: s < size ==> s in net.requests)
  }

  lemma {:induction false} SendAll(setup: Setup, size: nat) returns (steps: seq<NetStep>, net: Net)
    ensures Run(setup, steps) == Some(net) && Quiet(net, size) && net.open && net.arrivals == []
  {
    if size == 0 {
      steps, net := [], START;
    } else {
      steps, net := SendAll(setup, size - 1);
      steps, net := SendOne(setup, steps, net, size - 1);
    }
  }

  lemma SendOne(setup: Setup, before: seq<NetStep>, was: Net, size: nat) returns (steps: seq<NetStep>, net: Net)
    requires Run(setup, before) == Some(was) && Quiet(was, size)
    ensures Run(setup, steps) == Some(net) && Quiet(net, size + 1)
    ensures net.open == was.open && net.arrivals == was.arrivals
  {
    hide Run;
    var sent := SendReturns(T, T, 0);
    RunOneMore(setup, before, was, Send(T));
    var sending := Next(setup, was, Send(T));
    RunOneMore(setup, before + [Send(T)], sending, sent);
    steps, net := before + [Send(T)] + [sent], Next(setup, sending, sent);
  }

  /** Whether a reply closes the connection if the duration is checked as soon as its request arrives. */
  predicate ExpiresAtOnce(cfg: ServerConfig, arrivals: seq<Arrival>)
    requires arrivals != []
  {
    Expired(cfg, arrivals[0].time, arrivals[|arrivals| - 1].time)
  }

  /** Serves a copy of a request in flight. */
  lemma ServeCopy(setup: Setup, before: seq<NetStep>, was: Net, a: Arrival)
    returns (steps: seq<NetStep>, net: Net)
    requires Run(setup, before) == Some(was) && was.open && a.seqno in was.requests
    ensures Run(setup, steps) == Some(net) && net.arrivals == was.arrivals + [a]
    ensures net.client == was.client && net.receiving == was.receiving && net.delivered == was.delivered
    ensures net.requests == was.requests && (forall r :: r in was.replies ==> r in net.replies)
    ensures Replied(setup, net.arrivals, net.replies)
    ensures net.open == !(Admits(setup.cfg, TimesOf(net.arrivals)) && ExpiresAtOnce(setup.cfg, net.arrivals))
  {
    var copy, serve := DuplicateRequest(a.seqno), Serve(a.seqno, a.time, a.time);
    RunOneMore(setup, before, was, copy);
    var copied := Next(setup, was, copy);
    assert copied == was.(requests := was.requests + multiset{a.seqno});
    hide Run, CanStep, Next;
    ServeAtOnce(setup, copied, a);
    RunOneMore(setup, before + [copy], copied, serve);
    steps, net := before + [copy] + [serve], Next(setup, copied, serve);
  }

  lemma ServeAtOnce(setup: Setup, net: Net, a: Arrival)
    requires net.open && a.seqno in net.requests
    ensures CanStep(setup, net, Serve(a.seqno, a.time, a.time))
    ensures var next := Next(setup, net, Serve(a.seqno, a.time, a.time));
            && next.arrivals == net.arrivals + [a]
            && next.client == net.client && next.receiving == net.receiving && next.delivered == net.delivered
            && next.requests == net.requests - multiset{a.seqno} && (forall r :: r in net.replies ==> r in next.replies)
            && Replied(setup, next.arrivals, next.replies)
            && next.open == !(Admits(setup.cfg, TimesOf(next.arrivals)) && ExpiresAtOnce(setup.cfg, next.arrivals))
  {
    hide Admits, ServerReply, Expired;
    assert a == Arrival(a.time, a.seqno);
  }

  /** The last of `arrivals` is accepted in time. */
  predicate InTime(cfg: ServerConfig, arrivals: seq<Arrival>) {
    arrivals != [] && Admits(cfg, TimesOf(arrivals)) && !Overdue(cfg, arrivals)
  }

  /** The reply to each request that was accepted is in flight. */
  ghost predicate AllReplied(setup: Setup, net: Net) {
    forall q :: 0 < q <= |net.arrivals| ==> Replied(setup, net.arrivals[..q], net.replies)
  }

  ghost predicate Replied(setup: Setup, arrivals: seq<Arrival>, replies: multiset<ReplyPacket>)
    requires arrivals != []
  {
    Admits(setup.cfg, TimesOf(arrivals)) ==>
      ServerReply(setup, arrivals, ExpiresAtOnce(setup.cfg, arrivals)) in replies
  }

  /** A server may receive these requests on one connection: only the last may be overdue. */
  ghost predicate Servable(cfg: ServerConfig, arrivals: seq<Arrival>) {
    forall q :: 0 < q < |arrivals| ==> !Overdue(cfg, arrivals[..q])
  }

  lemma RepliedOneMore(setup: Setup, was: Net, net: Net)
    requires AllReplied(setup, was) && net.arrivals != [] && net.arrivals[..|net.arrivals| - 1] == was.arrivals
    requires forall r :: r in was.replies ==> r in net.replies
    requires Replied(setup, net.arrivals, net.replies)
    ensures AllReplied(setup, net)
  {
    hide Admits, ServerReply, ExpiresAtOnce;
    var n := |net.arrivals|;
    forall q | 0 < q <= n ensures Replied(setup, net.arrivals[..q], net.replies) {
      assert if q == n then net.arrivals[..q] == net.arrivals else net.arrivals[..q] == was.arrivals[..q];
    }
  }

  lemma QuietSent(net: Net, size: nat, s: u32)
    requires Quiet(net, size) && s < size
    ensures s in net.requests
  {
  }

  lemma StillQuiet(was: Net, net: Net, size: nat)
    requires Quiet(was, size) && net.client == was.client && net.requests == was.requests
    requires net.receiving == was.receiving && net.delivered == was.delivered
    ensures Quiet(net, size)
  {
  }

  lemma NoneReplied(setup: Setup, net: Net)
    requires net.arrivals == []
    ensures AllReplied(setup, net)
  {
  }

  /** Serves `arrivals` to a server that was sent `size` packets. */
  lemma {:induction false} ServeAll(setup: Setup, size: nat, arrivals: seq<Arrival>)
    returns (steps: seq<NetStep>, net: Net)
    requires Servable(setup.cfg, arrivals) && forall a :: a in arrivals ==> a.seqno < size
    ensures Run(setup, steps) == Some(net) && Quiet(net, size) && net.open == !Overdue(setup.cfg, arrivals)
    ensures net.arrivals == arrivals && AllReplied(setup, net)
    decreases |arrivals|, 1
  {
    hide *;
    if arrivals == [] {
      steps, net := SendAll(setup, size);
      NoneReplied(setup, net);
      NothingOverdue(setup.cfg);
    } else {
      var init, last := arrivals[..|arrivals| - 1], arrivals[|arrivals| - 1];
      assert init + [last] == arrivals;
      ServableInit(setup.cfg, init, last);
      steps, net := ServeOneMore(setup, size, init, last);
    }
  }

  lemma ServableInit(cfg: ServerConfig, init: seq<Arrival>, last: Arrival)
    requires Servable(cfg, init + [last])
    ensures Servable(cfg, init) && !Overdue(cfg, init)
  {
    hide Overdue;
    var all := init + [last];
    assert all[..|init|] == init;
    assert forall q :: 0 < q < |init| ==> all[..q] == init[..q];
    if init == [] {
      NothingOverdue(cfg);
    }
  }

  lemma NothingOverdue(cfg: ServerConfig)
    ensures !Overdue(cfg, [])
  {
  }

  /** A copy that is served at once is in time, overdue, or not accepted. */
  lemma AtOnceMeans(cfg: ServerConfig, arrivals: seq<Arrival>)
    requires arrivals != []
    ensures Overdue(cfg, arrivals) <==> Admits(cfg, TimesOf(arrivals)) && ExpiresAtOnce(cfg, arrivals)
    ensures InTime(cfg, arrivals) <==> Admits(cfg, TimesOf(arrivals)) && !ExpiresAtOnce(cfg, arrivals)
  {
  }

  lemma {:induction false} ServeOneMore(setup: Setup, size: nat, init: seq<Arrival>, last: Arrival)
    returns (steps: seq<NetStep>, net: Net)
    requires Servable(setup.cfg, init) && !Overdue(setup.cfg, init)
    requires (forall a :: a in init ==> a.seqno < size) && last.seqno < size
    ensures Run(setup, steps) == Some(net) && Quiet(net, size) && net.open == !Overdue(setup.cfg, init + [last])
    ensures net.arrivals == init + [last] && AllReplied(setup, net)
    decreases |init| + 1, 0
  {
    hide *;
    var before, was := ServeAll(setup, size, init);
    QuietSent(was, size, last.seqno);
    steps, net := ServeCopy(setup, before, was, last);
    StillQuiet(was, net, size);
    AtOnceMeans(setup.cfg, net.arrivals);
    assert net.arrivals[..|net.arrivals| - 1] == init;
    RepliedOneMore(setup, was, net);
  }

  /** Which request was the `n`-th to be accepted. */
  lemma {:induction false} AcceptedPrefix(setup: Setup, arrivals: seq<Arrival>, n: nat) returns (q: nat)
    requires 0 < n <= |AcceptedSeqnos(setup.cfg, arrivals)|
    ensures 0 < q <= |arrivals| && Admits(setup.cfg, TimesOf(arrivals[..q]))
    ensures AcceptedSeqnos(setup.cfg, arrivals[..q]) == AcceptedSeqnos(setup.cfg, arrivals)[..n]
    ensures n < |AcceptedSeqnos(setup.cfg, arrivals)| ==> q < |arrivals|
  {
    hide Admits;
    var init := arrivals[..|arrivals| - 1];
    if n <= |AcceptedSeqnos(setup.cfg, init)| {
      q := AcceptedPrefix(setup, init, n);
      assert init[..q] == arrivals[..q];
    } else {
      q := |arrivals|;
      assert arrivals[..q] == arrivals;
    }
  }

  /** The reply reaches the client. */
  ghost function Receipt(reply: ReplyPacket): (step: NetStep)
    ensures step.Deliver?
  {
    Deliver(reply, T, Timestamp(T, T), 0, 0)
  }

  /** The first reply to packet `i` is recorded with its window and its count. */
  lemma DeliverFirst(setup: Setup, before: seq<NetStep>, was: Net, size: nat, reply: ReplyPacket)
    returns (steps: seq<NetStep>, net: Net)
    requires Run(setup, before) == Some(was) && Quiet(was, size)
    requires reply in was.replies && !reply.closing && reply.seqno < size
    ensures Run(setup, steps) == Some(net) && net.arrivals == was.arrivals && net.open == was.open && net.receiving
    ensures net.delivered == [reply] && net.requests == was.requests && net.client.phase == Idle
    ensures net.replies == was.replies - multiset{reply}
    ensures var st := net.client.st;
            && |st.roundTripData| == |st.sendCalls| == size && |st.rtts| == 1 && st.duplicates == 0
            && (setup.UsesCount() ==> st.serverPacketsReceived == reply.count)
            && (setup.UsesWindow() ==> st.roundTripData[reply.seqno].receivedWindow == reply.window)
            && forall k :: 0 <= k < size ==> (st.roundTripData[k].ReplyReceived() <==> k == reply.seqno)
  {
    hide *;
    var step := Receipt(reply);
    QuietMeans(was, size);
    ReceiptMeans(setup, was, reply);
    RunOneMore(setup, before, was, step);
    steps, net := before + [step], Next(setup, was, step);
    FirstReceipt(was.client.st, AsReply(setup, step));
  }

  lemma QuietMeans(net: Net, size: nat)
    requires Quiet(net, size)
    ensures net.client.phase == Idle && net.receiving && net.delivered == []
    ensures var st := net.client.st;
            && |st.roundTripData| == |st.sendCalls| == size && st.rtts == [] && st.duplicates == 0
            && forall k :: 0 <= k < size ==> !st.roundTripData[k].ReplyReceived()
  {
  }

  lemma ReceiptMeans(setup: Setup, net: Net, reply: ReplyPacket)
    requires net.receiving && reply in net.replies && !reply.closing
    ensures CanStep(setup, net, Receipt(reply))
    ensures var r := AsReply(setup, Receipt(reply));
            && r.seqno == reply.seqno && !r.trcvd.IsZero()
            && (setup.UsesWindow() ==> r.window == Some(reply.window))
            && (setup.UsesCount() ==> r.count == Some(reply.count))
    ensures var next := Next(setup, net, Receipt(reply));
            && next == net.(client := next.client, receiving := reply.seqno < |net.client.st.roundTripData|,
                            replies := net.replies - multiset{reply}, delivered := net.delivered + [reply])
            && next.client.st == Receive(net.client.st, AsReply(setup, Receipt(reply)))
            && next.client.phase == net.client.phase
  {
    hide Receive;
  }

  /** What the recorder makes of the first reply of all. */
  lemma FirstReceipt(st: RecorderState, reply: Reply)
    requires reply.seqno < |st.roundTripData| && !reply.trcvd.IsZero() && st.rtts == []
    requires forall k :: 0 <= k < |st.roundTripData| ==> !st.roundTripData[k].ReplyReceived()
    ensures var next := Receive(st, reply);
            && |next.roundTripData| == |st.roundTripData| && |next.rtts| == 1
            && next.sendCalls == st.sendCalls && next.duplicates == st.duplicates
            && (reply.count.Some? ==> next.serverPacketsReceived == reply.count.value)
            && (reply.window.Some? ==> next.roundTripData[reply.seqno].receivedWindow == reply.window.value)
            && forall k :: 0 <= k < |st.roundTripData| ==> (next.roundTripData[k].ReplyReceived() <==> k == reply.seqno)
  {
    hide RoundTripData.RTT;
  }

  /** The reply to the `n`-th request accepted, which is in time, is delivered and no other. */
  lemma DeliverNth(setup: Setup, arrivals: seq<Arrival>, size: nat, n: nat)
    returns (steps: seq<NetStep>, net: Net, reply: ReplyPacket)
    requires Servable(setup.cfg, arrivals) && forall a :: a in arrivals ==> a.seqno < size
    requires 0 < n <= |TimelySeqnos(setup.cfg, arrivals)|
    ensures Run(setup, steps) == Some(net) && net.arrivals == arrivals && Quiet(net, size)
    ensures AllReplied(setup, net) && reply in net.replies && !reply.closing
    ensures var h := AcceptedSeqnos(setup.cfg, arrivals);
            && n <= |h| && reply.seqno == h[n - 1] < size
            && reply.window == WindowOf(h[..n]) && reply.count == AddU32(0, n)
  {
    hide *;
    TimelyIsPrefix(setup.cfg, arrivals);
    steps, net := ServeAll(setup, size, arrivals);
    var q := AcceptedPrefix(setup, arrivals, n);
    PrefixInTime(setup.cfg, arrivals, n, q);
    reply := ServerReply(setup, arrivals[..q], false);
    RepliedTo(setup, net, q);
    ReplyOfLast(setup, arrivals[..q]);
    LastOfPrefix(AcceptedSeqnos(setup.cfg, arrivals), n);
    AcceptedWithin(setup, arrivals, size);
    assert AcceptedSeqnos(setup.cfg, arrivals)[n - 1] in AcceptedSeqnos(setup.cfg, arrivals);
  }

  lemma PrefixInTime(cfg: ServerConfig, arrivals: seq<Arrival>, n: nat, q: nat)
    requires Servable(cfg, arrivals) && 0 < q <= |arrivals| && Admits(cfg, TimesOf(arrivals[..q]))
    requires n <= |TimelySeqnos(cfg, arrivals)| && (n < |AcceptedSeqnos(cfg, arrivals)| ==> q < |arrivals|)
    ensures InTime(cfg, arrivals[..q])
  {
    TimelyIsPrefix(cfg, arrivals);
    hide Overdue, TimelySeqnos, AcceptedSeqnos, Admits;
    assert arrivals[..|arrivals|] == arrivals;
  }

  lemma {:induction false} AcceptedWithin(setup: Setup, arrivals: seq<Arrival>, size: nat)
    requires forall a :: a in arrivals ==> a.seqno < size
    ensures forall s :: s in AcceptedSeqnos(setup.cfg, arrivals) ==> s < size
  {
    hide Admits;
    if arrivals != [] {
      AcceptedWithin(setup, arrivals[..|arrivals| - 1], size);
    }
  }

  /** If the order in which `arrivals` are accepted is not settled at the `n`-th, there is a run in which the
      accepted packet `x` is classified `LostUp`. */
  lemma WrongRun(setup: Setup, arrivals: seq<Arrival>, size: nat, n: nat, x: u32)
    returns (steps: seq<NetStep>, net: Net)
    requires setup.UsesWindow() && Servable(setup.cfg, arrivals) && forall a :: a in arrivals ==> a.seqno < size
    requires 0 < n <= |TimelySeqnos(setup.cfg, arrivals)| <= |AcceptedSeqnos(setup.cfg, arrivals)|
    requires Misses(AcceptedSeqnos(setup.cfg, arrivals), size, n, x)
    ensures Run(setup, steps) == Some(net) && net.arrivals == arrivals && |net.client.st.roundTripData| == size
    ensures x < size && StatusIn(setup, net, x) == LostUp
  {
    hide *;
    var h := AcceptedSeqnos(setup.cfg, arrivals);
    var before, was, reply := DeliverNth(setup, arrivals, size, n);
    LastOfPrefix(h, n);
    MissesMeans(h, size, n, x);
    steps, net := DeliverFirst(setup, before, was, size, reply);
    UnheldIsLostUp(net.client.st.roundTripData, h[..n], h[n - 1], x);
    ReachesBelow(h[n - 1], x);
    StatusInMeans(setup, net, x);
  }

  lemma MissesMeans(h: seq<u32>, size: nat, n: nat, x: u32)
    requires 0 < n <= |h| && Misses(h, size, n, x)
    ensures h[n - 1] < size && x in h && Reaches(h[n - 1], x) && !HeldSince(h[..n], x)
  {
  }

  lemma ReachesBelow(last: int, x: int)
    requires Reaches(last, x)
    ensures x < last
  {
  }

  lemma RepliedTo(setup: Setup, net: Net, q: nat)
    requires AllReplied(setup, net) && 0 < q <= |net.arrivals| && InTime(setup.cfg, net.arrivals[..q])
    ensures ServerReply(setup, net.arrivals[..q], false) in net.replies
  {
    hide ServerReply, Admits, AllReplied, ExpiresAtOnce;
    AtOnceMeans(setup.cfg, net.arrivals[..q]);
    RepliedAt(setup, net, q);
  }

  lemma RepliedAt(setup: Setup, net: Net, q: nat)
    requires AllReplied(setup, net) && 0 < q <= |net.arrivals|
    ensures Replied(setup, net.arrivals[..q], net.replies)
  {
  }

  lemma LastOfPrefix(h: seq<u32>, n: nat)
    requires 0 < n <= |h|
    ensures LastOf(h[..n]) == h[n - 1]
  {
  }

  lemma StatusInMeans(setup: Setup, net: Net, j: nat)
    requires setup.UsesWindow() && j < |net.client.st.roundTripData|
    ensures StatusIn(setup, net, j) == Status(net.client.st.roundTripData, true, j)
  {
    hide Status;
  }

  /** A reply carries the seqno and the window of the accepted seqnos that it ends. */
  lemma ReplyOfLast(setup: Setup, arrivals: seq<Arrival>)
    requires arrivals != [] && Admits(setup.cfg, TimesOf(arrivals))
    ensures var h, r := AcceptedSeqnos(setup.cfg, arrivals), ServerReply(setup, arrivals, false);
            && h != [] && LastOf(h) == r.seqno && r.window == WindowOf(h) && r.count == AddU32(0, |h|)
            && !r.closing
  {
  }

  /** `LostUp` is right in every run with these arrivals and as many records. */
  ghost predicate AlwaysSound(setup: Setup, arrivals: seq<Arrival>, size: nat) {
    forall steps, net ::
      Run(setup, steps) == Some(net) && net.arrivals == arrivals && |net.client.st.roundTripData| == size ==>
        LostUpSound(net.client.st.roundTripData, AcceptedSeqnos(setup.cfg, arrivals))
  }

  /** Whatever requests reach the server, if one connection may receive them: `LostUp` is right in every run exactly
      if the order in which they are accepted is settled. */
  lemma RunsSoundExactly(setup: Setup, arrivals: seq<Arrival>, size: nat)
    requires setup.UsesWindow() && forall a :: a in arrivals ==> a.seqno < size
    ensures AlwaysSound(setup, arrivals, size)
       <==> (Servable(setup.cfg, arrivals) ==> SettledArrivals(setup.cfg, arrivals, size))
  {
    TimelyIsPrefix(setup.cfg, arrivals);
    var h, m := AcceptedSeqnos(setup.cfg, arrivals), |TimelySeqnos(setup.cfg, arrivals)|;
    forall steps, net
      | Run(setup, steps) == Some(net) && net.arrivals == arrivals && |net.client.st.roundTripData| == size
      ensures Servable(setup.cfg, arrivals) && RecordsStamped(h[..m], net.client.st.roundTripData)
    {
      RunKeepsInv(setup, steps);
      RunIsServable(setup, steps);
    }
    hide Run, AcceptedSeqnos, TimelySeqnos, Servable, RecordsStamped, LostUpSound, Misses;
    LostUpSoundExactly(h, m, size);
    if Servable(setup.cfg, arrivals) && !Settled(h, m, size) {
      var n: nat, x: u32 :| 0 < n <= m && Misses(h, size, n, x);
      var steps, net := WrongRun(setup, arrivals, size, n, x);
      MissesMeans(h, size, n, x);
      UnsoundAt(setup, net, h, x);
    }
  }

  lemma UnsoundAt(setup: Setup, net: Net, h: seq<u32>, x: u32)
    requires setup.UsesWindow() && x < |net.client.st.roundTripData| && x in h && StatusIn(setup, net, x) == LostUp
    ensures !LostUpSound(net.client.st.roundTripData, h)
  {
    hide Status;
  }

  /** A connection that is open has had no overdue request, and one that is closed receives no more. */
  lemma {:induction false} RunIsServable(setup: Setup, steps: seq<NetStep>)
    requires Run(setup, steps).Some?
    ensures var net := Run(setup, steps).value;
            Servable(setup.cfg, net.arrivals) && (net.open ==> !Overdue(setup.cfg, net.arrivals))
  {
    if steps != [] {
      RunIsServable(setup, steps[..|steps| - 1]);
      StepIsServable(setup, Run(setup, steps[..|steps| - 1]).value, steps[|steps| - 1]);
    }
  }

  lemma StepIsServable(setup: Setup, net: Net, step: NetStep)
    requires CanStep(setup, net, step)
    requires Servable(setup.cfg, net.arrivals) && (net.open ==> !Overdue(setup.cfg, net.arrivals))
    ensures var next := Next(setup, net, step);
            Servable(setup.cfg, next.arrivals) && (next.open ==> !Overdue(setup.cfg, next.arrivals))
  {
    hide Step, AsReply, ServerReply, Enabled, Admits;
    if step.Serve? {
      var all := net.arrivals + [Arrival(step.now, step.seqno)];
      forall q | 0 < q < |all| ensures !Overdue(setup.cfg, all[..q]) {
        assert all[..q] == net.arrivals[..q];
        assert net.arrivals[..|net.arrivals|] == net.arrivals;
      }
    }
  }

  // Examples

  lemma NoLimit(setup: Setup, arrivals: seq<Arrival>)
    requires setup.cfg.minInterval <= 0
    ensures |AcceptedSeqnos(setup.cfg, arrivals)| == |arrivals|
    ensures forall k :: 0 <= k < |arrivals| ==> AcceptedSeqnos(setup.cfg, arrivals)[k] == arrivals[k].seqno
  {
    if arrivals != [] {
      NoLimit(setup, arrivals[..|arrivals| - 1]);
    }
  }

  /** Requests that arrive at the same time are not overdue. */
  lemma AtOnce(cfg: ServerConfig, arrivals: seq<Arrival>)
    requires forall k :: 0 <= k < |arrivals| ==> arrivals[k].time == 0
    ensures !Overdue(cfg, arrivals) && Servable(cfg, arrivals)
    ensures TimelySeqnos(cfg, arrivals) == AcceptedSeqnos(cfg, arrivals)
  {
  }

  /** The simplest such run: packet 0 is accepted after packet 1, and its own reply does not arrive. */
  lemma LostUpNeedsOrder(setup: Setup) returns (steps: seq<NetStep>, net: Net)
    requires setup.cfg.minInterval <= 0 && setup.UsesWindow()
    ensures Run(setup, steps) == Some(net) && |net.client.st.roundTripData| == 2
    ensures StatusIn(setup, net, 0) == LostUp && Accepted(setup, net) == [1, 0]
  {
    var arrivals := [Arrival(0, 1), Arrival(0, 0)];
    NoLimit(setup, arrivals);
    AtOnce(setup.cfg, arrivals);
    hide AcceptedSeqnos, TimelySeqnos, Run;
    var h := AcceptedSeqnos(setup.cfg, arrivals);
    assert h == [1, 0] && h[..1] == [1] && h[1] == 0;
    steps, net := WrongRun(setup, arrivals, 2, 1, 0);
  }

  lemma DeliverClosing(setup: Setup, before: seq<NetStep>, was: Net, reply: ReplyPacket)
    returns (steps: seq<NetStep>, net: Net)
    requires Run(setup, before) == Some(was) && was.receiving && reply in was.replies && reply.closing
    ensures Run(setup, steps) == Some(net) && net.client == was.client && net.arrivals == was.arrivals
    ensures net.delivered == was.delivered + [reply]
  {
    RunOneMore(setup, before, was, Receipt(reply));
    steps, net := before + [Receipt(reply)], Next(setup, was, Receipt(reply));
  }

  /** Packets 0 and 1 are served in order, and then a copy of packet 0, just after the end of the test. */
  function Three(cfg: ServerConfig): seq<Arrival> {
    [Arrival(0, 0), Arrival(0, 1), Arrival(cfg.maxDuration + MAX_DURATION_GRACE + 1, 0)]
  }

  lemma ThirdIsOverdue(setup: Setup)
    requires setup.cfg.minInterval <= 0 && setup.cfg.maxDuration > 0
    ensures var three := Three(setup.cfg);
            Overdue(setup.cfg, three) && Servable(setup.cfg, three) && ExpiresAtOnce(setup.cfg, three)
    ensures AcceptedSeqnos(setup.cfg, Three(setup.cfg)) == [0, 1, 0]
    ensures TimelySeqnos(setup.cfg, Three(setup.cfg)) == [0, 1]
  {
    NoLimit(setup, Three(setup.cfg));
    TimelyIsPrefix(setup.cfg, Three(setup.cfg));
    hide AcceptedSeqnos, TimelySeqnos;
  }

  /** The reply to the copy closes the connection. Only the reply to packet 1 has been delivered. */
  lemma ServedThrice(setup: Setup) returns (steps: seq<NetStep>, net: Net, closing: ReplyPacket)
    requires setup.cfg.minInterval <= 0 && setup.cfg.maxDuration > 0
    ensures Run(setup, steps) == Some(net) && net.receiving && |net.client.st.roundTripData| == 2
    ensures net.arrivals == Three(setup.cfg) && closing in net.replies && closing.closing && closing.seqno == 0
    ensures |net.delivered| == 1 && net.delivered[0].seqno == 1 && !net.delivered[0].closing
  {
    ThirdIsOverdue(setup);
    hide Run, AcceptedSeqnos, TimelySeqnos, WindowOf, Overdue, Servable, Quiet, AllReplied, ExpiresAtOnce;
    var three := Three(setup.cfg);
    var before, was, reply := DeliverNth(setup, three, 2, 2);
    closing := ServerReply(setup, three, true);
    RepliedAt(setup, was, 3);
    assert three[..3] == three;
    steps, net := DeliverFirst(setup, before, was, 2, reply);
  }

  lemma FateOfFirst(delivered: seq<ReplyPacket>, h: seq<u32>)
    requires |delivered| == 2 && delivered[0].seqno == 1 && !delivered[0].closing
    requires delivered[1].seqno == 0 && delivered[1].closing && h == [0, 1, 0]
    ensures Fate(HeardSet(delivered, 2), true, h, 0) == LostDown
  {
    assert Heard(delivered, 1) && !Heard(delivered, 0);
    assert 1 in HeardSet(delivered, 2) && Reaches(1, 0);
  }

  lemma SettledThrice(setup: Setup, net: Net)
    requires setup.cfg.minInterval <= 0 && setup.cfg.maxDuration > 0 && net.arrivals == Three(setup.cfg)
    ensures Accepted(setup, net) == [0, 1, 0]
    ensures |net.client.st.roundTripData| == 2 ==> SettledRun(setup, net)
  {
    ThirdIsOverdue(setup);
    var h := Accepted(setup, net);
    assert h[..2][0] == 0 && InOrder(h[..2][0..]);
    hide AcceptedSeqnos, TimelySeqnos, Overdue;
  }

  /** A reply that closes the connection is not recorded: here one to packet 0 reaches the client, and the packet
      is classified `LostDown`. It takes a server that limits the duration of tests: see `LostDownIsSound`. */
  lemma ClosingReplyIsLost(setup: Setup) returns (steps: seq<NetStep>, net: Net)
    requires setup.cfg.minInterval <= 0 && setup.cfg.maxDuration > 0 && setup.UsesWindow()
    ensures Run(setup, steps) == Some(net) && |net.client.st.roundTripData| == 2
    ensures StatusIn(setup, net, 0) == LostDown && exists r :: r in net.delivered && r.seqno == 0
  {
    hide *;
    var before, was, closing := ServedThrice(setup);
    steps, net := DeliverClosing(setup, before, was, closing);
    SettledThrice(setup, net);
    SettledIsExact(setup, steps, net, 0);
    FateOfFirst(net.delivered, Accepted(setup, net));
    assert closing in net.delivered;
  }

  lemma FirstSending(setup: Setup) returns (steps: seq<NetStep>, net: Net)
    ensures Run(setup, steps) == Some(net) && net.client.phase == Sending && net.receiving && net.open
    ensures net.client.st.roundTripData == [Unanswered(T)] && net.client.st.rtts == net.client.st.sendCalls == []
    ensures 0 in net.requests && net.arrivals == []
  {
    RunOneMore(setup, [], START, Send(T));
    steps, net := [Send(T)], Next(setup, START, Send(T));
  }

  /** A first reply is counted. */
  lemma DeliverCounts(setup: Setup, before: seq<NetStep>, was: Net, reply: ReplyPacket)
    returns (steps: seq<NetStep>, net: Net)
    requires Run(setup, before) == Some(was) && was.receiving && reply in was.replies && !reply.closing
    requires was.client.st.roundTripData == [Unanswered(T)] && reply.seqno == 0
    ensures Run(setup, steps) == Some(net) && net.client.phase == was.client.phase
    ensures |net.client.st.rtts| == |was.client.st.rtts| + 1 && net.client.st.sendCalls == was.client.st.sendCalls
    ensures |net.client.st.roundTripData| == 1
  {
    hide Has, RoundTripData.RTT;
    RunOneMore(setup, before, was, Receipt(reply));
    steps, net := before + [Receipt(reply)], Next(setup, was, Receipt(reply));
  }

  lemma FailAfter(setup: Setup, before: seq<NetStep>, was: Net) returns (steps: seq<NetStep>, net: Net)
    requires Run(setup, before) == Some(was) && was.client.phase == Sending && was.client.st.roundTripData != []
    ensures Run(setup, steps) == Some(net)
    ensures net.client.st.rtts == was.client.st.rtts && net.client.st.sendCalls == was.client.st.sendCalls
  {
    RunOneMore(setup, before, was, SendFails);
    steps, net := before + [SendFails], Next(setup, was, SendFails);
  }

  /** A send call may report an error for a packet that is on its way all the same. If its reply has been
      recorded by then, more replies are counted than send calls. */
  lemma LossCountCanWrap(setup: Setup) returns (steps: seq<NetStep>, net: Net)
    requires Admits(setup.cfg, [0])
    ensures Run(setup, steps) == Some(net) && |net.client.st.rtts| > |net.client.st.sendCalls|
  {
    var a := Arrival(0, 0);
    var reply := ServerReply(setup, [a], false);
    assert TimesOf([a]) == [0] && reply.seqno == 0 && !reply.closing;
    assert !ExpiresAtOnce(setup.cfg, [a]) && forall replies :: Replied(setup, [a], replies) ==> reply in replies;
    hide *;
    steps, net := FirstSending(setup);
    steps, net := ServeCopy(setup, steps, net, a);
    assert net.arrivals == [a];
    steps, net := DeliverCounts(setup, steps, net, reply);
    steps, net := FailAfter(setup, steps, net);
  }
}
