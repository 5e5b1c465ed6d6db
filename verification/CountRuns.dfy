/** What the server's count means in a run, and when the subtractions made with it wrap around. */
module CountRuns {
  import opened Config
  import opened Network
  import opened NetworkRuns
  import opened Numbers
  import opened Recording
  import opened RecorderRuns
  import opened ServerConn

  /** In every run the recorded count is the number of requests that had been accepted, modulo 2^32, when the last
      of the first replies was sent. */
  lemma CountMeans(setup: Setup, steps: seq<NetStep>, net: Net)
    requires Run(setup, steps) == Some(net) && setup.UsesCount()
    ensures CountKept(Timely(setup, net), net.client.st.serverPacketsReceived, net.client.firsts)
  {
    RunKeepsInv(setup, steps);
  }

  /** `SendCallStats.N - ServerPacketsReceived` */
  predicate UpstreamWraps(st: RecorderState) { st.serverPacketsReceived > |st.sendCalls| }

  /** `ServerPacketsReceived - PacketsReceived`, which is left out when the server received nothing. */
  predicate DownstreamWraps(st: RecorderState) {
    0 < st.serverPacketsReceived < |st.rtts| + st.duplicates
  }

  /** A run with these arrivals and as many records, and no send call in progress. */
  ghost predicate Ended(setup: Setup, steps: seq<NetStep>, net: Net, arrivals: seq<Arrival>, size: nat) {
    && Run(setup, steps) == Some(net) && net.arrivals == arrivals
    && |net.client.st.roundTripData| == size && net.client.phase != Sending
  }

  ghost predicate UpstreamSafe(setup: Setup, arrivals: seq<Arrival>, size: nat) {
    forall steps, net :: Ended(setup, steps, net, arrivals, size) ==> !UpstreamWraps(net.client.st)
  }

  ghost predicate DownstreamSafe(setup: Setup, arrivals: seq<Arrival>, size: nat) {
    forall steps, net :: Ended(setup, steps, net, arrivals, size) ==> !DownstreamWraps(net.client.st)
  }

  /** No count that may be recorded exceeds the number of packets sent. */
  ghost predicate CountsWithin(m: nat, size: nat) {
    forall n: nat :: 0 < n <= m ==> n % 0x1_0000_0000 <= size
  }

  /** The upstream loss wraps in some run exactly if the server can count more requests than were sent, which
      takes duplicates. */
  lemma UpstreamSafeExactly(setup: Setup, arrivals: seq<Arrival>, size: nat)
    requires setup.UsesCount() && forall a :: a in arrivals ==> a.seqno < size
    ensures UpstreamSafe(setup, arrivals, size)
       <==> (Servable(setup.cfg, arrivals) ==> CountsWithin(|TimelySeqnos(setup.cfg, arrivals)|, size))
  {
    var m := |TimelySeqnos(setup.cfg, arrivals)|;
    hide Run, TimelySeqnos, Servable, UpstreamWraps, DownstreamWraps, CountsWithin;
    forall steps, net | Ended(setup, steps, net, arrivals, size)
      ensures Servable(setup.cfg, arrivals) && (CountsWithin(m, size) ==> !UpstreamWraps(net.client.st))
    {
      RunIsServable(setup, steps);
      if CountsWithin(m, size) {
        UpstreamBounded(setup, steps, net);
      }
    }
    if Servable(setup.cfg, arrivals) && !CountsWithin(m, size) {
      var steps, net := UpstreamRun(setup, arrivals, size);
    }
  }

  lemma UpstreamBounded(setup: Setup, steps: seq<NetStep>, net: Net)
    requires Run(setup, steps) == Some(net) && net.client.phase != Sending && setup.UsesCount()
    requires CountsWithin(|TimelySeqnos(setup.cfg, net.arrivals)|, |net.client.st.roundTripData|)
    ensures !UpstreamWraps(net.client.st)
  {
    RunKeepsInv(setup, steps);
    hide Run, TimelySeqnos, Sourced, HistoryKept, AnswersKept;
  }

  lemma NothingCounted(setup: Setup, steps: seq<NetStep>, net: Net)
    requires Run(setup, steps) == Some(net) && setup.UsesCount() && Timely(setup, net) == []
    ensures !DownstreamWraps(net.client.st)
  {
    RunKeepsInv(setup, steps);
    hide Run, TimelySeqnos, Sourced, HistoryKept, AnswersKept;
  }

  lemma UpstreamRun(setup: Setup, arrivals: seq<Arrival>, size: nat) returns (steps: seq<NetStep>, net: Net)
    requires setup.UsesCount() && Servable(setup.cfg, arrivals) && forall a :: a in arrivals ==> a.seqno < size
    requires !CountsWithin(|TimelySeqnos(setup.cfg, arrivals)|, size)
    ensures Ended(setup, steps, net, arrivals, size) && UpstreamWraps(net.client.st)
  {
    hide Run, TimelySeqnos, AcceptedSeqnos, Quiet, AllReplied, Servable;
    var n: nat :| 0 < n <= |TimelySeqnos(setup.cfg, arrivals)| && n % 0x1_0000_0000 > size;
    var before, was, reply := DeliverNth(setup, arrivals, size, n);
    steps, net := DeliverFirst(setup, before, was, size, reply);
  }

  /** The downstream loss wraps in some run exactly if any reply can be heard: enough copies of one will do. */
  lemma DownstreamSafeExactly(setup: Setup, arrivals: seq<Arrival>, size: nat)
    requires setup.UsesCount() && forall a :: a in arrivals ==> a.seqno < size
    ensures DownstreamSafe(setup, arrivals, size)
       <==> (Servable(setup.cfg, arrivals) ==> TimelySeqnos(setup.cfg, arrivals) == [])
  {
    hide Run, TimelySeqnos, Servable, UpstreamWraps, DownstreamWraps, CountsWithin;
    forall steps, net | Ended(setup, steps, net, arrivals, size)
      ensures Servable(setup.cfg, arrivals)
      ensures TimelySeqnos(setup.cfg, arrivals) == [] ==> !DownstreamWraps(net.client.st)
    {
      RunIsServable(setup, steps);
      if TimelySeqnos(setup.cfg, arrivals) == [] {
        NothingCounted(setup, steps, net);
      }
    }
    if Servable(setup.cfg, arrivals) && TimelySeqnos(setup.cfg, arrivals) != [] {
      var steps, net := DownstreamRun(setup, arrivals, size);
    }
  }

  lemma DownstreamRun(setup: Setup, arrivals: seq<Arrival>, size: nat) returns (steps: seq<NetStep>, net: Net)
    requires setup.UsesCount() && Servable(setup.cfg, arrivals) && forall a :: a in arrivals ==> a.seqno < size
    requires TimelySeqnos(setup.cfg, arrivals) != []
    ensures Ended(setup, steps, net, arrivals, size) && DownstreamWraps(net.client.st)
  {
    hide Run, TimelySeqnos, AcceptedSeqnos, Quiet, AllReplied, Servable;
    var before, was, reply := DeliverNth(setup, arrivals, size, 1);
    var copied, twice := CopyReply(setup, before, was, size, reply);
    steps, net := DeliverFirst(setup, copied, twice, size, reply);
    steps, net := DeliverAgain(setup, steps, net, reply);
  }

  lemma CopyReply(setup: Setup, before: seq<NetStep>, was: Net, size: nat, reply: ReplyPacket)
    returns (steps: seq<NetStep>, net: Net)
    requires Run(setup, before) == Some(was) && Quiet(was, size) && reply in was.replies
    ensures Run(setup, steps) == Some(net) && Quiet(net, size) && net.arrivals == was.arrivals
    ensures reply in net.replies && reply in net.replies - multiset{reply}
  {
    hide Run;
    RunOneMore(setup, before, was, DuplicateReply(reply));
    steps, net := before + [DuplicateReply(reply)], Next(setup, was, DuplicateReply(reply));
  }

  /** A copy of an answer is counted as a duplicate. */
  lemma DeliverAgain(setup: Setup, before: seq<NetStep>, was: Net, reply: ReplyPacket)
    returns (steps: seq<NetStep>, net: Net)
    requires Run(setup, before) == Some(was) && was.receiving && reply in was.replies && !reply.closing
    requires reply.seqno < |was.client.st.roundTripData| && was.client.st.roundTripData[reply.seqno].ReplyReceived()
    ensures Run(setup, steps) == Some(net) && net.arrivals == was.arrivals && net.client.phase == was.client.phase
    ensures var st, st' := was.client.st, net.client.st;
            && |st'.roundTripData| == |st.roundTripData| && st'.rtts == st.rtts && st'.duplicates == st.duplicates + 1
            && st'.serverPacketsReceived == st.serverPacketsReceived
  {
    ReceiptMeans(setup, was, reply);
    hide Run, CanStep, Next, AsReply;
    RunOneMore(setup, before, was, Receipt(reply));
    steps, net := before + [Receipt(reply)], Next(setup, was, Receipt(reply));
  }
}
