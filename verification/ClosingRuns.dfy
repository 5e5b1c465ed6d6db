/** When the server closes a connection, in terms of the clock alone. */
module ClosingRuns {
  import opened Config
  import opened Network
  import opened Numbers
  import opened RecorderRuns
  import opened ServerConn
  import opened Times
  import opened TokenBucket
  import opened Window

  /** `checked` is more than two seconds later than the longest test allowed, counted from `first`. */
  predicate PastLimit(cfg: ServerConfig, first: int, checked: int) {
    cfg.maxDuration > 0 && checked > first + cfg.maxDuration + 2 * SECOND
  }

  /** An accepted request gets one reply. It closes the connection exactly if it is checked too late, counted from
      the first request that reached the server. */
  lemma ClosesExactly(setup: Setup, steps: seq<NetStep>, net: Net, step: NetStep, next: Net)
    requires step.Serve? && Run(setup, steps) == Some(net) && Run(setup, steps + [step]) == Some(next)
    ensures next.arrivals == net.arrivals + [Arrival(step.now, step.seqno)]
    ensures Admits(setup.cfg, TimesOf(next.arrivals)) ==>
              exists r :: next.replies == net.replies + multiset{r} && r.seqno == step.seqno && next.open == !r.closing
                && r.closing == PastLimit(setup.cfg, next.arrivals[0].time, step.later)
    ensures !Admits(setup.cfg, TimesOf(next.arrivals)) ==> next.replies == net.replies && next.open
  {
    assert (steps + [step])[..|steps|] == steps;
    hide Admits, AcceptedSeqnos;
    if Admits(setup.cfg, TimesOf(next.arrivals)) {
      var closing := Expired(setup.cfg, next.arrivals[0].time, step.later);
      var r := ServerReply(setup, next.arrivals, closing);
      assert next.replies == net.replies + multiset{r};
    }
  }

  /** Step `k` of a run serves a request that is accepted, and checked too late. */
  ghost predicate ServedLate(setup: Setup, steps: seq<NetStep>, k: nat)
    requires k < |steps|
  {
    var before := Run(setup, steps[..k]);
    steps[k].Serve? && before.Some? &&
    var arrivals := before.value.arrivals + [Arrival(steps[k].now, steps[k].seqno)];
    Admits(setup.cfg, TimesOf(arrivals)) && PastLimit(setup.cfg, arrivals[0].time, steps[k].later)
  }

  ghost predicate NoneClosing(net: Net) {
    && (forall r :: r in net.replies ==> !r.closing)
    && (forall r :: r in net.delivered ==> !r.closing)
  }

  lemma ServeCloses(setup: Setup, net: Net, step: NetStep)
    requires step.Serve? && CanStep(setup, net, step)
    ensures var next := Next(setup, net, step);
            net.open && (next.open && NoneClosing(net) ==> NoneClosing(next))
  {
    hide Admits, AcceptedSeqnos, TimesOf, Expired, WindowOf;
  }

  lemma OthersKeepOpen(setup: Setup, net: Net, step: NetStep)
    requires !step.Serve? && CanStep(setup, net, step)
    ensures var next := Next(setup, net, step);
            next.open == net.open && (NoneClosing(net) ==> NoneClosing(next))
  {
    hide AsReply, Step, Enabled;
  }

  /** The connection is closed exactly in the runs in which an accepted request was checked too late. Until then no
      reply says so. */
  lemma {:induction false} ClosedExactly(setup: Setup, steps: seq<NetStep>, net: Net)
    requires Run(setup, steps) == Some(net)
    ensures !net.open <==> exists k :: 0 <= k < |steps| && ServedLate(setup, steps, k)
    ensures net.open ==> NoneClosing(net)
    decreases |steps|
  {
    hide Next, CanStep, ServedLate, NoneClosing;
    if steps == [] {
      NothingClosing();
    } else {
      var last := |steps| - 1;
      var prev, step := steps[..last], steps[last];
      var was := Run(setup, prev).value;
      ClosedExactly(setup, prev, was);
      if step.Serve? {
        ServeCloses(setup, was, step);
      } else {
        OthersKeepOpen(setup, was, step);
      }
      StepServedLate(setup, steps, was);
      hide Run;
      forall k | 0 <= k < last ensures ServedLate(setup, steps, k) == ServedLate(setup, prev, k) {
        ServedLateBefore(setup, steps, k);
      }
    }
  }

  lemma NothingClosing()
    ensures START.open && NoneClosing(START)
  {
  }

  lemma ServedLateBefore(setup: Setup, steps: seq<NetStep>, k: nat)
    requires k < |steps| - 1
    ensures ServedLate(setup, steps, k) == ServedLate(setup, steps[..|steps| - 1], k)
  {
    assert steps[..|steps| - 1][..k] == steps[..k];
    hide Run, Admits;
  }

  lemma StepServedLate(setup: Setup, steps: seq<NetStep>, was: Net)
    requires steps != [] && Run(setup, steps[..|steps| - 1]) == Some(was)
    requires CanStep(setup, was, steps[|steps| - 1])
    ensures var last := |steps| - 1;
            ServedLate(setup, steps, last) == (steps[last].Serve? && !Next(setup, was, steps[last]).open)
  {
    hide Run, Admits, AcceptedSeqnos;
  }
}
