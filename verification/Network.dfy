/** A whole test over a network that drops, duplicates and reorders packets in both directions:
    what the loss classification made at its end means. */
module Network {
  import opened Config
  import opened Losses
  import opened Numbers
  import opened Recording
  import opened RecorderRuns
  import opened ServerConn
  import opened Times
  import opened TokenBucket
  import opened Window

  /** What matters of an echo reply on its way to the client. */
  datatype ReplyPacket = ReplyPacket(seqno: u32, count: u32, window: u64, closing: bool)

  /** A request is served at `now`, and `later` is the clock when the test's duration is checked.
      The packets in flight are bags: any of them may be the next to arrive. `arrivals` are the requests that
      reached the server, and `delivered` the replies that reached the client. */
  datatype Net = Net(
    client: Log, receiving: bool,
    requests: multiset<u32>, replies: multiset<ReplyPacket>,
    arrivals: seq<Arrival>, open: bool, delivered: seq<ReplyPacket>)

  datatype Setup = Setup(cfg: ServerConfig, stats: ReceivedStats) {
    predicate UsesWindow() { Has(stats, WINDOW) }

    predicate UsesCount() { Has(stats, COUNT) }
  }

  datatype NetStep =
    | Send(tsend: Time)
    | SendReturns(tsend: Time, tsent: Time, n: nat)
    | SendFails
    | DropRequest(seqno: u32)
    | DuplicateRequest(seqno: u32)
    | Serve(seqno: u32, now: int, later: int)
    | DropReply(reply: ReplyPacket)
    | DuplicateReply(reply: ReplyPacket)
    | Deliver(reply: ReplyPacket, trcvd: Time, server: Timestamp, length: nat, ecn: int)

  const START: Net := Net(Log(EMPTY, Idle, 0, []), true, multiset{}, multiset{}, [], true, [])

  /** The client's view of a reply, with the received stats that the test asked for. */
  function AsReply(setup: Setup, step: NetStep): Reply
    requires step.Deliver?
  {
    Reply(step.reply.seqno, step.trcvd, step.server,
          if setup.UsesCount() then Some(step.reply.count) else None,
          if setup.UsesWindow() then Some(step.reply.window) else None,
          step.length, step.ecn)
  }

  predicate CanStep(setup: Setup, net: Net, step: NetStep) {
    match step
    case Send(tsend) => Enabled(net.client, PreSendEvent(tsend))
    case SendReturns(tsend, tsent, n) => Enabled(net.client, PostSendEvent(tsend, tsent, n))
    case SendFails => Enabled(net.client, SendErrorEvent)
    case DropRequest(seqno) => seqno in net.requests
    case DuplicateRequest(seqno) => seqno in net.requests
    case Serve(seqno, now, later) => net.open && seqno in net.requests && now <= later
    case DropReply(reply) => reply in net.replies
    case DuplicateReply(reply) => reply in net.replies
    case Deliver(reply, trcvd, _, _, _) => net.receiving && reply in net.replies && !trcvd.IsZero()
  }

  /** The server's reply to the last of `arrivals`, which it accepted. */
  function ServerReply(setup: Setup, arrivals: seq<Arrival>, closing: bool): ReplyPacket
    requires arrivals != []
  {
    var accepted := AcceptedSeqnos(setup.cfg, arrivals);
    ReplyPacket(arrivals[|arrivals| - 1].seqno, AddU32(0, |accepted|), WindowOf(accepted), closing)
  }

  function Next(setup: Setup, net: Net, step: NetStep): Net
    requires CanStep(setup, net, step)
  {
    match step
    case Send(tsend) =>
      net.(client := Step(net.client, PreSendEvent(tsend)),
           requests := net.requests + multiset{AddU32(0, |net.client.st.roundTripData|)})
    case SendReturns(tsend, tsent, n) => net.(client := Step(net.client, PostSendEvent(tsend, tsent, n)))
    case SendFails => net.(client := Step(net.client, SendErrorEvent))
    case DropRequest(seqno) => net.(requests := net.requests - multiset{seqno})
    case DuplicateRequest(seqno) => net.(requests := net.requests + multiset{seqno})
    case Serve(seqno, now, later) =>
      var arrivals := net.arrivals + [Arrival(now, seqno)];
      var closing := Expired(setup.cfg, arrivals[0].time, later);
      if Admits(setup.cfg, TimesOf(arrivals))
      then net.(requests := net.requests - multiset{seqno}, arrivals := arrivals, open := !closing,
                replies := net.replies + multiset{ServerReply(setup, arrivals, closing)})
      else net.(requests := net.requests - multiset{seqno}, arrivals := arrivals)
    case DropReply(reply) => net.(replies := net.replies - multiset{reply})
    case DuplicateReply(reply) => net.(replies := net.replies + multiset{reply})
    case Deliver(reply, _, _, _, _) =>
      if reply.closing
      then net.(replies := net.replies - multiset{reply}, delivered := net.delivered + [reply], receiving := false)
      else net.(replies := net.replies - multiset{reply}, delivered := net.delivered + [reply],
                receiving := Expected(net.client.st, reply.seqno),
                client := Step(net.client, ReceiveEvent(AsReply(setup, step))))
  }

  /** The network after a run, or `None` if some step was not possible when it was taken. */
  ghost function Run(setup: Setup, steps: seq<NetStep>): Option<Net> {
    if steps == [] then Some(START)
    else
      match Run(setup, steps[..|steps| - 1])
      case None => None
      case Some(net) =>
        if CanStep(setup, net, steps[|steps| - 1]) then Some(Next(setup, net, steps[|steps| - 1])) else None
  }

  ghost function Accepted(setup: Setup, net: Net): seq<u32> { AcceptedSeqnos(setup.cfg, net.arrivals) }

  /** The last of `arrivals` is accepted so late that its reply must close the connection. */
  predicate Overdue(cfg: ServerConfig, arrivals: seq<Arrival>) {
    && arrivals != [] && Admits(cfg, TimesOf(arrivals))
    && Expired(cfg, arrivals[0].time, arrivals[|arrivals| - 1].time)
  }

  /** The accepted seqnos whose replies need not close the connection. */
  function TimelySeqnos(cfg: ServerConfig, arrivals: seq<Arrival>): seq<u32> {
    AcceptedSeqnos(cfg, if Overdue(cfg, arrivals) then arrivals[..|arrivals| - 1] else arrivals)
  }

  ghost function Timely(setup: Setup, net: Net): seq<u32> { TimelySeqnos(setup.cfg, net.arrivals) }

  lemma TimelyIsPrefix(cfg: ServerConfig, arrivals: seq<Arrival>)
    ensures var h, t := AcceptedSeqnos(cfg, arrivals), TimelySeqnos(cfg, arrivals);
            t == h[..|t|] && |t| == if Overdue(cfg, arrivals) then |h| - 1 else |h|
  {
  }

  /** `window` was stamped when `seqno` was the latest of the seqnos accepted. */
  ghost predicate StampedBy(accepted: seq<u32>, seqno: int, window: u64) {
    exists n :: 0 < n <= |accepted| && accepted[n - 1] == seqno && WindowOf(accepted[..n]) == window
  }

  /** `count` was then the number of them. */
  ghost predicate CountedBy(accepted: seq<u32>, seqno: int, count: u32) {
    exists n :: 0 < n <= |accepted| && accepted[n - 1] == seqno && n % 0x1_0000_0000 == count
  }

  /** What the replies in flight that do not close the connection say was so when they were sent. */
  ghost predicate RepliesStamped(timely: seq<u32>, replies: multiset<ReplyPacket>) {
    forall r :: r in replies && !r.closing ==>
      StampedBy(timely, r.seqno, r.window) && CountedBy(timely, r.seqno, r.count)
  }

  ghost predicate RecordsStamped(timely: seq<u32>, rtds: seq<RoundTripData>) {
    forall i :: 0 <= i < |rtds| && rtds[i].ReplyReceived() ==> StampedBy(timely, i, rtds[i].receivedWindow)
  }

  /** The recorded count is that of the last of the first replies. */
  ghost predicate CountKept(timely: seq<u32>, count: u32, firsts: seq<nat>) {
    if firsts == [] then count == 0 else CountedBy(timely, firsts[|firsts| - 1], count)
  }

  /** A reply to `j` reached the client, and was not one that closes the connection. */
  ghost predicate Heard(delivered: seq<ReplyPacket>, j: int) {
    exists k :: 0 <= k < |delivered| && delivered[k].seqno == j && !delivered[k].closing
  }

  /** The records tell what was heard. Only the last reply delivered can be a closing one. */
  ghost predicate HistoryKept(rtds: seq<RoundTripData>, delivered: seq<ReplyPacket>, receiving: bool) {
    && (forall i :: 0 <= i < |rtds| ==> (rtds[i].ReplyReceived() <==> Heard(delivered, i)))
    && (forall k :: 0 <= k < |delivered| && delivered[k].closing ==> k == |delivered| - 1 && !receiving)
  }

  /** Every packet there is goes back to one of those `started`, and none closes a connection without limit. */
  ghost predicate Sourced(started: nat, limited: bool, requests: multiset<u32>, replies: multiset<ReplyPacket>,
                          delivered: seq<ReplyPacket>) {
    && (forall seqno :: seqno in requests ==> seqno < started)
    && (forall r :: r in replies ==> r.seqno < started && (r.closing ==> limited))
    && (forall r :: r in delivered ==> r.seqno < started && (r.closing ==> limited))
  }

  ghost predicate StampsKept(setup: Setup, timely: seq<u32>, replies: multiset<ReplyPacket>, client: Log) {
    && RepliesStamped(timely, replies)
    && (setup.UsesWindow() ==> RecordsStamped(timely, client.st.roundTripData))
    && (if setup.UsesCount() then CountKept(timely, client.st.serverPacketsReceived, client.firsts)
        else client.st.serverPacketsReceived == 0)
  }

  ghost predicate Kept(setup: Setup, net: Net) {
    && Sourced(Started(net.client), setup.cfg.maxDuration > 0, net.requests, net.replies, net.delivered)
    && HistoryKept(net.client.st.roundTripData, net.delivered, net.receiving)
    && StampsKept(setup, Timely(setup, net), net.replies, net.client)
  }

  ghost predicate Inv(setup: Setup, net: Net) { Conserved(net.client) && Kept(setup, net) }

  lemma StampedLater(h: seq<u32>, more: seq<u32>, seqno: int, window: u64)
    requires StampedBy(h, seqno, window)
    ensures StampedBy(h + more, seqno, window)
  {
    var n :| 0 < n <= |h| && h[n - 1] == seqno && WindowOf(h[..n]) == window;
    assert (h + more)[..n] == h[..n];
  }

  lemma CountedLater(h: seq<u32>, more: seq<u32>, seqno: int, count: u32)
    requires CountedBy(h, seqno, count)
    ensures CountedBy(h + more, seqno, count)
  {
    var n :| 0 < n <= |h| && h[n - 1] == seqno && n % 0x1_0000_0000 == count;
    assert (h + more)[n - 1] == h[n - 1];
  }

  lemma AllStampedLater(setup: Setup, h: seq<u32>, more: seq<u32>, replies: multiset<ReplyPacket>, client: Log)
    requires StampsKept(setup, h, replies, client)
    ensures StampsKept(setup, h + more, replies, client)
  {
    forall seqno: int, window | StampedBy(h, seqno, window) ensures StampedBy(h + more, seqno, window) {
      StampedLater(h, more, seqno, window);
    }
    forall seqno: int, count | CountedBy(h, seqno, count) ensures CountedBy(h + more, seqno, count) {
      CountedLater(h, more, seqno, count);
    }
    hide StampedBy, CountedBy;
  }

  /** The server's reply to the `n`-th request accepted says what is so at that moment. */
  lemma LastIsStamped(h: seq<u32>, seqno: u32)
    ensures var all := h + [seqno];
            StampedBy(all, seqno, WindowOf(all)) && CountedBy(all, seqno, AddU32(0, |all|))
  {
    var all := h + [seqno];
    assert all[..|all|] == all && all[|all| - 1] == seqno;
  }

  /** How one more arrival changes the timely seqnos. */
  lemma TimelyOneMore(cfg: ServerConfig, arrivals: seq<Arrival>, a: Arrival)
    ensures var t, t' := TimelySeqnos(cfg, arrivals), TimelySeqnos(cfg, arrivals + [a]);
            && t <= AcceptedSeqnos(cfg, arrivals)
            && t' == if Admits(cfg, TimesOf(arrivals + [a])) && !Overdue(cfg, arrivals + [a])
                     then AcceptedSeqnos(cfg, arrivals) + [a.seqno] else AcceptedSeqnos(cfg, arrivals)
  {
    TimelyIsPrefix(cfg, arrivals);
    TimelyIsPrefix(cfg, arrivals + [a]);
    AcceptedOfPush(cfg, arrivals, a);
  }

  lemma ServeMeans(setup: Setup, net: Net, step: NetStep)
    requires step.Serve? && CanStep(setup, net, step)
    ensures var next, a := Next(setup, net, step), Arrival(step.now, step.seqno);
            var closing := Expired(setup.cfg, next.arrivals[0].time, step.later);
            && next.arrivals == net.arrivals + [a]
            && next.client == net.client && next.delivered == net.delivered && next.receiving == net.receiving
            && (forall seqno :: seqno in next.requests ==> seqno in net.requests)
            && (forall r :: r in next.replies && r !in net.replies ==>
                  Admits(setup.cfg, TimesOf(next.arrivals)) && r == ServerReply(setup, next.arrivals, closing))
  {
    hide Admits, ServerReply, Expired, TimesOf;
  }

  /** A reply that does not close the connection was accepted in time. */
  lemma OpenMeansTimely(setup: Setup, arrivals: seq<Arrival>, a: Arrival, later: int)
    requires var all := arrivals + [a];
             Admits(setup.cfg, TimesOf(all)) && a.time <= later && !Expired(setup.cfg, all[0].time, later)
    ensures !Overdue(setup.cfg, arrivals + [a])
    ensures var r := ServerReply(setup, arrivals + [a], false);
            var t := TimelySeqnos(setup.cfg, arrivals + [a]);
            r.seqno == a.seqno && StampedBy(t, r.seqno, r.window) && CountedBy(t, r.seqno, r.count)
  {
    TimelyOneMore(setup.cfg, arrivals, a);
    AcceptedOfPush(setup.cfg, arrivals, a);
    LastIsStamped(AcceptedSeqnos(setup.cfg, arrivals), a.seqno);
    hide StampedBy, CountedBy, AcceptedSeqnos, WindowOf;
  }

  lemma ServeKeepsStamps(setup: Setup, net: Net, step: NetStep)
    requires step.Serve? && Kept(setup, net) && CanStep(setup, net, step)
    ensures StampsKept(setup, TimelySeqnos(setup.cfg, net.arrivals + [Arrival(step.now, step.seqno)]),
                       net.replies, net.client)
  {
    var h, t := AcceptedSeqnos(setup.cfg, net.arrivals), Timely(setup, net);
    TimelyOneMore(setup.cfg, net.arrivals, Arrival(step.now, step.seqno));
    AllStampedLater(setup, t, h[|t|..], net.replies, net.client);
    AllStampedLater(setup, h, [step.seqno], net.replies, net.client);
    assert t + h[|t|..] == h;
  }

  /** The replies in flight once one more request is served. */
  lemma ServedStamped(setup: Setup, net: Net, step: NetStep)
    requires step.Serve? && Kept(setup, net) && CanStep(setup, net, step)
    ensures RepliesStamped(Timely(setup, Next(setup, net, step)), Next(setup, net, step).replies)
  {
    ServeMeans(setup, net, step);
    ServeKeepsStamps(setup, net, step);
    var arrivals, a := Next(setup, net, step).arrivals, Arrival(step.now, step.seqno);
    var closing := Expired(setup.cfg, arrivals[0].time, step.later);
    if Admits(setup.cfg, TimesOf(arrivals)) && !closing {
      OpenMeansTimely(setup, net.arrivals, a, step.later);
    }
    hide Kept, Next, Admits, TimesOf, StampedBy, CountedBy, TimelySeqnos, RecordsStamped, CountKept, Expired;
    hide AcceptedSeqnos, WindowOf;
  }

  /** A served reply carries the request's seqno, and closes the connection only at the end of a limited test. */
  lemma ServedSourced(setup: Setup, net: Net, step: NetStep)
    requires step.Serve? && Kept(setup, net) && CanStep(setup, net, step)
    ensures var next := Next(setup, net, step);
            Sourced(Started(net.client), setup.cfg.maxDuration > 0, next.requests, next.replies, net.delivered)
  {
    ServeMeans(setup, net, step);
    hide Next, Admits, TimesOf, AcceptedSeqnos, WindowOf, HistoryKept, StampsKept, Started;
  }

  lemma ServeKeeps(setup: Setup, net: Net, step: NetStep)
    requires step.Serve? && Kept(setup, net) && CanStep(setup, net, step)
    ensures Kept(setup, Next(setup, net, step))
  {
    ServeMeans(setup, net, step);
    ServeKeepsStamps(setup, net, step);
    ServedStamped(setup, net, step);
    ServedSourced(setup, net, step);
    hide Next, CanStep, Sourced, HistoryKept, Started, TimelySeqnos, RecordsStamped, RepliesStamped, CountKept;
    hide Expired, Admits;
  }

  lemma ReceiveKeepsRecords(timely: seq<u32>, st: RecorderState, reply: Reply)
    requires RecordsStamped(timely, st.roundTripData)
    requires reply.window.Some? && StampedBy(timely, reply.seqno, reply.window.value)
    ensures RecordsStamped(timely, Receive(st, reply).roundTripData)
  {
    if Expected(st, reply.seqno) && !st.roundTripData[reply.seqno].ReplyReceived() {
      assert FirstReply(st, reply).roundTripData
          == st.roundTripData[reply.seqno := Answered(st.roundTripData[reply.seqno], reply)];
    }
  }

  /** The count is recorded when a first reply is. */
  lemma ReceiveCounts(log: Log, reply: Reply)
    requires !reply.trcvd.IsZero()
    ensures Enabled(log, ReceiveEvent(reply))
    ensures var next := Step(log, ReceiveEvent(reply));
            && next.st == Receive(log.st, reply)
            && next.firsts == (if IsFirst(log, reply) then log.firsts + [reply.seqno] else log.firsts)
            && next.st.serverPacketsReceived
            == if IsFirst(log, reply) && reply.count.Some? then reply.count.value else log.st.serverPacketsReceived
  {
  }

  /** A reply whose stamps are good leaves good stamps in the recorder. */
  lemma ReceiveKeepsStamps(setup: Setup, timely: seq<u32>, replies: multiset<ReplyPacket>, log: Log, reply: Reply)
    requires StampsKept(setup, timely, replies, log) && !reply.trcvd.IsZero()
    requires if setup.UsesWindow() then reply.window.Some? && StampedBy(timely, reply.seqno, reply.window.value)
             else reply.window.None?
    requires if setup.UsesCount() then reply.count.Some? && CountedBy(timely, reply.seqno, reply.count.value)
             else reply.count.None?
    ensures Enabled(log, ReceiveEvent(reply)) && StampsKept(setup, timely, replies, Step(log, ReceiveEvent(reply)))
  {
    ReceiveCounts(log, reply);
    hide Has, StampedBy, CountedBy, Receive, Step, Enabled;
    if setup.UsesWindow() {
      ReceiveKeepsRecords(timely, log.st, reply);
    }
    hide RecordsStamped;
  }

  lemma StepConservesClient(setup: Setup, net: Net, step: NetStep)
    requires Conserved(net.client) && CanStep(setup, net, step)
    ensures Conserved(Next(setup, net, step).client)
  {
    match step
    case Send(tsend) => StepConserves(net.client, PreSendEvent(tsend));
    case SendReturns(tsend, tsent, n) => StepConserves(net.client, PostSendEvent(tsend, tsent, n));
    case SendFails => StepConserves(net.client, SendErrorEvent);
    case Deliver(reply, _, _, _, _) =>
      if !reply.closing {
        StepConserves(net.client, ReceiveEvent(AsReply(setup, step)));
      }
    case _ =>
  }

  lemma StartedGrows(log: Log, ev: Event)
    requires Enabled(log, ev)
    ensures Started(Step(log, ev)) >= Started(log)
    ensures ev.PreSendEvent? ==> Started(Step(log, ev)) > |log.st.roundTripData|
  {
  }

  /** Receiving starts no record. */
  lemma ReceiveStarted(log: Log, reply: Reply)
    requires !reply.trcvd.IsZero()
    ensures Enabled(log, ReceiveEvent(reply)) && Started(Step(log, ReceiveEvent(reply))) == Started(log)
  {
  }

  lemma HeardOneMore(delivered: seq<ReplyPacket>, reply: ReplyPacket, j: int)
    ensures Heard(delivered + [reply], j) <==> Heard(delivered, j) || (reply.seqno == j && !reply.closing)
  {
    var more := delivered + [reply];
    if Heard(delivered, j) {
      var k :| 0 <= k < |delivered| && delivered[k].seqno == j && !delivered[k].closing;
      assert more[k] == delivered[k];
    }
    if reply.seqno == j && !reply.closing {
      assert more[|delivered|] == reply;
    }
  }

  /** Receiving answers the record of the reply's seqno, and no other. */
  lemma ReceiveAnswers(st: RecorderState, reply: Reply)
    requires !reply.trcvd.IsZero()
    ensures |Receive(st, reply).roundTripData| == |st.roundTripData|
    ensures forall i :: 0 <= i < |st.roundTripData| ==>
      Receive(st, reply).roundTripData[i].ReplyReceived() == (st.roundTripData[i].ReplyReceived() || i == reply.seqno)
  {
  }

  lemma SendMeans(setup: Setup, net: Net, step: NetStep)
    requires step.Send? && CanStep(setup, net, step)
    ensures var next, st, st' := Next(setup, net, step), net.client.st, Next(setup, net, step).client.st;
            && st'.roundTripData == st.roundTripData + [Unanswered(step.tsend)]
            && st'.serverPacketsReceived == st.serverPacketsReceived && next.client.firsts == net.client.firsts
            && Started(net.client) == |st.roundTripData| && Started(next.client) == |st.roundTripData| + 1
            && (forall s :: s in next.requests ==> s in net.requests || s == AddU32(0, |st.roundTripData|))
            && next == net.(client := next.client, requests := next.requests)
  {
  }

  /** A new record is unanswered. */
  lemma NewRecordStamped(timely: seq<u32>, rtds: seq<RoundTripData>, tsend: Time)
    requires RecordsStamped(timely, rtds)
    ensures RecordsStamped(timely, rtds + [Unanswered(tsend)])
  {
    hide StampedBy;
  }

  /** A new record is unanswered, and nothing was heard of its seqno. */
  lemma NewRecordUnheard(rtds: seq<RoundTripData>, delivered: seq<ReplyPacket>, receiving: bool, tsend: Time)
    requires HistoryKept(rtds, delivered, receiving) && forall r :: r in delivered ==> r.seqno < |rtds|
    ensures HistoryKept(rtds + [Unanswered(tsend)], delivered, receiving)
  {
    assert !Heard(delivered, |rtds|);
    hide Heard;
  }

  lemma SendKeeps(setup: Setup, net: Net, step: NetStep)
    requires step.Send? && Kept(setup, net) && CanStep(setup, net, step)
    ensures Kept(setup, Next(setup, net, step))
  {
    hide CanStep, Next, Started, HistoryKept, Heard, RecordsStamped, RepliesStamped, CountKept, TimelySeqnos;
    SendMeans(setup, net, step);
    NewRecordUnheard(net.client.st.roundTripData, net.delivered, net.receiving, step.tsend);
    if setup.UsesWindow() {
      NewRecordStamped(Timely(setup, net), net.client.st.roundTripData, step.tsend);
    }
  }

  lemma SendEndKeeps(setup: Setup, net: Net, step: NetStep)
    requires (step.SendReturns? || step.SendFails?) && Kept(setup, net) && CanStep(setup, net, step)
    ensures Kept(setup, Next(setup, net, step))
  {
    var ev := if step.SendFails? then SendErrorEvent else PostSendEvent(step.tsend, step.tsent, step.n);
    StartedGrows(net.client, ev);
    hide Heard, StampedBy, CountedBy, TimelySeqnos;
  }

  /** In flight, packets are only lost or copied. */
  lemma FlightMeans(setup: Setup, net: Net, step: NetStep)
    requires step.DropRequest? || step.DuplicateRequest? || step.DropReply? || step.DuplicateReply?
    requires CanStep(setup, net, step)
    ensures var next := Next(setup, net, step);
            && next == net.(requests := next.requests, replies := next.replies)
            && (forall seqno :: seqno in next.requests ==> seqno in net.requests)
            && (forall r :: r in next.replies ==> r in net.replies)
  {
  }

  lemma FlightKeeps(setup: Setup, net: Net, step: NetStep)
    requires step.DropRequest? || step.DuplicateRequest? || step.DropReply? || step.DuplicateReply?
    requires Kept(setup, net) && CanStep(setup, net, step)
    ensures Kept(setup, Next(setup, net, step))
  {
    hide CanStep, Next, HistoryKept, StampedBy, CountedBy, RecordsStamped, CountKept, Started, TimelySeqnos;
    FlightMeans(setup, net, step);
  }

  /** A delivery leaves the records in step with what was heard. */
  lemma DeliveryKeeps(st: RecorderState, reply: Reply, delivered: seq<ReplyPacket>, packet: ReplyPacket,
                      receiving: bool)
    requires HistoryKept(st.roundTripData, delivered, true) && (packet.closing ==> !receiving)
    requires reply.seqno == packet.seqno && !reply.trcvd.IsZero()
    ensures HistoryKept(if packet.closing then st.roundTripData else Receive(st, reply).roundTripData,
                        delivered + [packet], receiving)
  {
    ReceiveAnswers(st, reply);
    forall j: int ensures Heard(delivered + [packet], j)
                     <==> Heard(delivered, j) || (packet.seqno == j && !packet.closing) {
      HeardOneMore(delivered, packet, j);
    }
    hide Heard, Receive;
  }

  lemma ReceiveMeans(setup: Setup, net: Net, step: NetStep)
    requires step.Deliver? && CanStep(setup, net, step)
    ensures Enabled(net.client, ReceiveEvent(AsReply(setup, step)))
    ensures var next, st := Next(setup, net, step), net.client.st;
            && step.reply in net.replies && net.receiving && !step.trcvd.IsZero()
            && (step.reply.closing ==> next.client == net.client && !next.receiving)
            && (!step.reply.closing ==> next.client == Step(net.client, ReceiveEvent(AsReply(setup, step))))
            && (!step.reply.closing ==> next.client.st == Receive(st, AsReply(setup, step)))
            && Started(next.client) == Started(net.client)
            && next.requests == net.requests && next.arrivals == net.arrivals
            && next.delivered == net.delivered + [step.reply] && next.replies == net.replies - multiset{step.reply}
  {
    ReceiveStarted(net.client, AsReply(setup, step));
  }

  lemma AsReplyMeans(setup: Setup, step: NetStep)
    requires step.Deliver?
    ensures var reply := AsReply(setup, step);
            && reply.trcvd == step.trcvd && reply.seqno == step.reply.seqno
            && reply.window == (if setup.UsesWindow() then Some(step.reply.window) else None)
            && reply.count == (if setup.UsesCount() then Some(step.reply.count) else None)
  {
  }

  lemma ReceiveKeeps(setup: Setup, net: Net, step: NetStep)
    requires step.Deliver? && Kept(setup, net) && CanStep(setup, net, step)
    ensures Kept(setup, Next(setup, net, step))
  {
    hide CanStep, Next, HistoryKept, StampedBy, CountedBy, RecordsStamped, CountKept, Started, Receive, Step, Enabled;
    hide TimelySeqnos, AsReply, Has;
    ReceiveMeans(setup, net, step);
    AsReplyMeans(setup, step);
    var reply := AsReply(setup, step);
    assert net.receiving == true;
    DeliveryKeeps(net.client.st, reply, net.delivered, step.reply, Next(setup, net, step).receiving);
    if !step.reply.closing {
      ReceiveKeepsStamps(setup, Timely(setup, net), net.replies, net.client, reply);
    }
  }

  lemma StepKeepsInv(setup: Setup, net: Net, step: NetStep)
    requires Inv(setup, net) && CanStep(setup, net, step)
    ensures Inv(setup, Next(setup, net, step))
  {
    hide Conserved, Kept, CanStep, Next;
    StepConservesClient(setup, net, step);
    match step
    case Send(_) => SendKeeps(setup, net, step);
    case SendReturns(_, _, _) => SendEndKeeps(setup, net, step);
    case SendFails => SendEndKeeps(setup, net, step);
    case Serve(_, _, _) => ServeKeeps(setup, net, step);
    case Deliver(_, _, _, _, _) => ReceiveKeeps(setup, net, step);
    case _ => FlightKeeps(setup, net, step);
  }

  lemma {:induction false} RunKeepsInv(setup: Setup, steps: seq<NetStep>)
    requires Run(setup, steps).Some?
    ensures Inv(setup, Run(setup, steps).value)
  {
    if steps != [] {
      RunKeepsInv(setup, steps[..|steps| - 1]);
      StepKeepsInv(setup, Run(setup, steps[..|steps| - 1]).value, steps[|steps| - 1]);
    }
  }

  ghost function StatusIn(setup: Setup, net: Net, j: nat): Lost
    requires j < |net.client.st.roundTripData|
  {
    Status(net.client.st.roundTripData, setup.UsesWindow(), j)
  }

  lemma StampSound(accepted: seq<u32>, i: nat, j: nat, window: u64)
    requires StampedBy(accepted, i, window) && j < i <= j + 63 && Bit(window, i - j)
    ensures j in accepted
  {
    var n :| 0 < n <= |accepted| && accepted[n - 1] == i && WindowOf(accepted[..n]) == window;
    WindowSound(accepted[..n], i - j);
  }

  /** A record without a reply: the only reply that may have reached the client is the last, if it closed the
      connection. */
  lemma UnheardReplies(rtds: seq<RoundTripData>, delivered: seq<ReplyPacket>, receiving: bool, j: nat)
    requires HistoryKept(rtds, delivered, receiving) && j < |rtds| && !rtds[j].ReplyReceived()
    ensures !Heard(delivered, j)
    ensures (exists r :: r in delivered && r.seqno == j)
       <==> delivered != [] && var last := delivered[|delivered| - 1]; last.closing && last.seqno == j
  {
    assert !Heard(delivered, j);
    forall r | r in delivered && r.seqno == j ensures r.closing && r == delivered[|delivered| - 1] {
      var k :| 0 <= k < |delivered| && delivered[k] == r;
    }
  }

  lemma LostDownAccepted(setup: Setup, net: Net, j: nat)
    requires Inv(setup, net) && j < |net.client.st.roundTripData| && StatusIn(setup, net, j) == LostDown
    ensures j in Accepted(setup, net) && !net.client.st.roundTripData[j].ReplyReceived()
  {
    var rtds := net.client.st.roundTripData;
    var i :| 0 <= i < |rtds| && Confirms(rtds, i, j);
    hide Sourced, HistoryKept, RepliesStamped, CountKept, AcceptedSeqnos, TimelySeqnos, Conserved;
    StampSound(Timely(setup, net), i, j, rtds[i].receivedWindow);
    TimelyIsPrefix(setup.cfg, net.arrivals);
  }

  /** In every run, a packet classified as lost downstream was accepted by the server, and the client heard no
      reply to it. A reply to it reached the client exactly if it was the one that closed the connection, which
      is not recorded. There is none if the server does not limit the duration of tests. */
  lemma LostDownIsSound(setup: Setup, steps: seq<NetStep>, net: Net, j: nat)
    requires Run(setup, steps) == Some(net) && j < |net.client.st.roundTripData|
    requires StatusIn(setup, net, j) == LostDown
    ensures j in Accepted(setup, net) && !Heard(net.delivered, j)
    ensures (exists r :: r in net.delivered && r.seqno == j)
       <==> net.delivered != [] && var last := net.delivered[|net.delivered| - 1]; last.closing && last.seqno == j
    ensures setup.cfg.maxDuration <= 0 ==> forall r :: r in net.delivered ==> r.seqno != j
  {
    RunKeepsInv(setup, steps);
    hide Run, Conserved, HistoryKept, StampsKept, Heard, StatusIn, Accepted;
    LostDownAccepted(setup, net, j);
    UnheardReplies(net.client.st.roundTripData, net.delivered, net.receiving, j);
  }
}
