/** What the recorder conserves while the send and receive goroutines call it in any interleaving. */
module RecorderRuns {
  import opened Numbers
  import opened Recording
  import opened Times

  /** Where the send loop is: between packets, inside a send call, or stopped by a send error. */
  datatype Phase = Idle | Sending | Failed

  datatype Event =
    | PreSendEvent(tsend: Time)
    | PostSendEvent(tsend: Time, tsent: Time, n: nat)
    | SendErrorEvent
    | ReceiveEvent(reply: Reply)

  /** The recorder with what its fields alone do not remember: how many receives it accepted, and
      the seqnos of the first replies in order of arrival. */
  datatype Log = Log(st: RecorderState, phase: Phase, accepted: nat, firsts: seq<nat>)

  predicate Enabled(log: Log, ev: Event) {
    match ev
    case PreSendEvent(_) => log.phase == Idle
    case PostSendEvent(tsend, tsent, _) => log.phase == Sending && tsent.Comparable(tsend)
    case SendErrorEvent => log.phase == Sending && log.st.roundTripData != []
    case ReceiveEvent(reply) => !reply.trcvd.IsZero()
  }

  function Step(log: Log, ev: Event): Log
    requires Enabled(log, ev)
  {
    match ev
    case PreSendEvent(tsend) => log.(st := PreSend(log.st, tsend), phase := Sending)
    case PostSendEvent(tsend, tsent, n) => log.(st := PostSend(log.st, tsend, tsent, n), phase := Idle)
    case SendErrorEvent => log.(st := RemoveLastStamps(log.st), phase := Failed)
    case ReceiveEvent(reply) =>
      Log(Receive(log.st, reply), log.phase,
          if Expected(log.st, reply.seqno) then log.accepted + 1 else log.accepted,
          if IsFirst(log, reply) then log.firsts + [reply.seqno] else log.firsts)
  }

  /** The log after a run, or `None` if some event was not possible when it came. */
  ghost function After(evs: seq<Event>): Option<Log> {
    if evs == [] then Some(Log(EMPTY, Idle, 0, []))
    else
      match After(evs[..|evs| - 1])
      case None => None
      case Some(log) => if Enabled(log, evs[|evs| - 1]) then Some(Step(log, evs[|evs| - 1])) else None
  }

  /** How many elements of `s` are smaller than the element before them. */
  ghost function Descents(s: seq<nat>): nat {
    if |s| < 2 then 0
    else Descents(s[..|s| - 1]) + if s[|s| - 1] < s[|s| - 2] then 1 else 0
  }

  ghost predicate Distinct(s: seq<nat>) { forall i, j :: 0 <= i < j < |s| ==> s[i] != s[j] }

  /** The number of records there ever were: a send error removes one. */
  ghost function Started(log: Log): nat {
    |log.st.roundTripData| + if log.phase == Failed then 1 else 0
  }

  /** Accepted receives are first replies and duplicates; late packets are descents. */
  ghost predicate CountsKept(log: Log) {
    && log.accepted == |log.st.rtts| + log.st.duplicates
    && |log.st.rtts| == |log.firsts|
    && log.st.latePackets == Descents(log.firsts)
    && log.st.lastSeqno == (if log.firsts == [] then 0 else log.firsts[|log.firsts| - 1])
    && |log.st.roundTripData| == |log.st.sendCalls| + if log.phase == Sending then 1 else 0
  }

  /** Each record is answered once, and the answered records are the first replies. */
  ghost predicate AnswersKept(log: Log) {
    && Distinct(log.firsts)
    && (forall i :: 0 <= i < |log.st.roundTripData| ==>
          (log.st.roundTripData[i].ReplyReceived() <==> i in log.firsts))
    && (forall i :: i in log.firsts ==> i < Started(log))
  }

  ghost predicate Conserved(log: Log) { CountsKept(log) && AnswersKept(log) }

  predicate IsFirst(log: Log, reply: Reply) {
    Expected(log.st, reply.seqno) && !log.st.roundTripData[reply.seqno].ReplyReceived()
  }

  lemma FirstReplyCounts(log: Log, reply: Reply)
    requires CountsKept(log) && IsFirst(log, reply)
    ensures CountsKept(Log(FirstReply(log.st, reply), log.phase, log.accepted + 1, log.firsts + [reply.seqno]))
  {
    assert (log.firsts + [reply.seqno])[..|log.firsts|] == log.firsts;
  }

  lemma FirstReplyAnswers(log: Log, reply: Reply)
    requires AnswersKept(log) && IsFirst(log, reply) && !reply.trcvd.IsZero()
    ensures AnswersKept(Log(FirstReply(log.st, reply), log.phase, log.accepted + 1, log.firsts + [reply.seqno]))
  {
    var firsts := log.firsts + [reply.seqno];
    assert forall i :: i in firsts <==> i in log.firsts || i == reply.seqno;
    var rtd := Answered(log.st.roundTripData[reply.seqno], reply);
    assert rtd.ReplyReceived();
  }

  lemma ReceiveConserves(log: Log, reply: Reply)
    requires Conserved(log) && !reply.trcvd.IsZero()
    ensures Conserved(Step(log, ReceiveEvent(reply)))
  {
    if IsFirst(log, reply) {
      FirstReplyCounts(log, reply);
      FirstReplyAnswers(log, reply);
    }
  }

  lemma StepConserves(log: Log, ev: Event)
    requires Conserved(log) && Enabled(log, ev)
    ensures Conserved(Step(log, ev))
  {
    if ev.ReceiveEvent? {
      ReceiveConserves(log, ev.reply);
    }
  }

  /** In every interleaving: accepted receives are first replies and duplicates, the answered records
      are the first replies, and late packets are the descents among them. */
  lemma {:induction false} RunConserves(evs: seq<Event>)
    requires After(evs).Some?
    ensures Conserved(After(evs).value)
  {
    if evs != [] {
      RunConserves(evs[..|evs| - 1]);
      StepConserves(After(evs[..|evs| - 1]).value, evs[|evs| - 1]);
    }
  }

  ghost function UpTo(n: nat): (s: set<nat>)
    ensures |s| == n && forall i :: i in s <==> 0 <= i < n
  {
    if n == 0 then {} else UpTo(n - 1) + {n - 1}
  }

  ghost function Elements(s: seq<nat>): set<nat> { set i | i in s }

  lemma {:induction false} DistinctIsSet(s: seq<nat>)
    requires Distinct(s)
    ensures |Elements(s)| == |s|
  {
    if s != [] {
      var prev, last := s[..|s| - 1], s[|s| - 1];
      DistinctIsSet(prev);
      assert s == prev + [last];
      assert last !in prev;
      assert Elements(s) == Elements(prev) + {last};
    }
  }

  lemma SubsetSize(a: set<nat>, b: set<nat>)
    requires a <= b
    ensures |a| <= |b| && (|a| == |b| ==> a == b)
  {
    assert b == a + (b - a);
  }

  /** Once sending is over, `SendCallStats.N - RTTStats.N` is the number of unanswered packets, and it
      wraps around exactly when a send failed after its packet, like every other, had been answered. */
  lemma LossCountWraps(evs: seq<Event>)
    requires After(evs).Some? && After(evs).value.phase != Sending
    ensures var log := After(evs).value;
            |log.st.rtts| > |log.st.sendCalls| <==>
            log.phase == Failed && forall i :: 0 <= i <= |log.st.roundTripData| ==> i in log.firsts
  {
    RunConserves(evs);
    AnsweredCount(After(evs).value);
  }

  lemma AnsweredCount(log: Log)
    requires Conserved(log)
    ensures |log.firsts| <= Started(log)
    ensures |log.firsts| == Started(log) <==> forall i :: 0 <= i < Started(log) ==> i in log.firsts
  {
    DistinctIsSet(log.firsts);
    var answered, all := Elements(log.firsts), UpTo(Started(log));
    SubsetSize(answered, all);
    if |log.firsts| == Started(log) {
      forall i | 0 <= i < Started(log) ensures i in log.firsts {
        assert i in all;
      }
    }
    if forall i :: 0 <= i < Started(log) ==> i in log.firsts {
      assert forall i :: i in all ==> i in answered;
      assert answered == all;
    }
  }

  // Bytes

  /** The bytes of all packets sent, and of all first replies received. */
  ghost function SentBytes(evs: seq<Event>): nat {
    if evs == [] then 0
    else
      var last := evs[|evs| - 1];
      SentBytes(evs[..|evs| - 1]) + if last.PostSendEvent? then last.n else 0
  }

  ghost function ReceivedBytes(evs: seq<Event>): nat {
    if evs == [] then 0
    else
      var last, log := evs[|evs| - 1], After(evs[..|evs| - 1]);
      ReceivedBytes(evs[..|evs| - 1])
      + if last.ReceiveEvent? && log.Some? && IsFirst(log.value, last.reply) then last.reply.length else 0
  }

  /** A counter that wraps around. */
  predicate Counts(counter: u64, total: nat) { counter == total % 0x1_0000_0000_0000_0000 }

  lemma CountsMore(counter: u64, total: nat, n: nat)
    requires Counts(counter, total)
    ensures Counts(AddU64(counter, n), total + n)
  {
  }

  /** In every run the bytes counted are those of the packets sent and of the first replies, modulo 2^64. */
  lemma {:induction false} RunCountsBytes(evs: seq<Event>)
    requires After(evs).Some?
    ensures Counts(After(evs).value.st.bytesSent, SentBytes(evs))
    ensures Counts(After(evs).value.st.bytesReceived, ReceivedBytes(evs))
  {
    hide AddU64, Counts, SentBytes, ReceivedBytes, Step, Enabled, After, Gained, IsFirst;
    if evs == [] {
      EmptyCounts();
    } else {
      var prev, last := evs[..|evs| - 1], evs[|evs| - 1];
      AfterStep(evs);
      RunCountsBytes(prev);
      StepCountsBytes(After(prev).value, last);
      BytesOneMore(evs);
      var st := After(prev).value.st;
      CountsMore(st.bytesSent, SentBytes(prev), if last.PostSendEvent? then last.n else 0);
      CountsMore(st.bytesReceived, ReceivedBytes(prev), Gained(After(prev).value, last));
    }
  }

  lemma EmptyCounts()
    ensures After([]).Some? && SentBytes([]) == ReceivedBytes([]) == 0
    ensures Counts(After([]).value.st.bytesSent, 0) && Counts(After([]).value.st.bytesReceived, 0)
  {
  }

  lemma AfterStep(evs: seq<Event>)
    requires evs != [] && After(evs).Some?
    ensures var prev, last := After(evs[..|evs| - 1]), evs[|evs| - 1];
            prev.Some? && Enabled(prev.value, last) && After(evs).value == Step(prev.value, last)
  {
    hide Enabled, Step;
  }

  ghost function Gained(log: Log, ev: Event): nat {
    if ev.ReceiveEvent? && IsFirst(log, ev.reply) then ev.reply.length else 0
  }

  lemma BytesOneMore(evs: seq<Event>)
    requires evs != [] && After(evs[..|evs| - 1]).Some?
    ensures var prev, last := evs[..|evs| - 1], evs[|evs| - 1];
            && SentBytes(evs) == SentBytes(prev) + (if last.PostSendEvent? then last.n else 0)
            && ReceivedBytes(evs) == ReceivedBytes(prev) + Gained(After(prev).value, last)
  {
    hide After, IsFirst;
  }

  lemma StepCountsBytes(log: Log, ev: Event)
    requires Enabled(log, ev)
    ensures var st := Step(log, ev).st;
            && st.bytesSent == AddU64(log.st.bytesSent, if ev.PostSendEvent? then ev.n else 0)
            && st.bytesReceived == AddU64(log.st.bytesReceived, Gained(log, ev))
  {
    hide Answered, RoundTripData.RTT, RoundTripData.SendDelay, RoundTripData.ReceiveDelay;
  }
}
