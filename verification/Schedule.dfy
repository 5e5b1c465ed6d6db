/** The client's isochronous send loop. Times are readings of the monotonic clock. */
module Schedule {
  import opened Numbers

  lemma QuotientUnique(d: nat, q: nat, r: nat)
    requires r < d
    ensures (d * q + r) / d == q
  {
    RemainderUnique(d, q, r);
    var x := d * q + r;
    MultipleAtLeast(d, x / d - q);
    assert d * (x / d - q) == 0;
  }

  /** Dividing is monotone, and exact on multiples. */
  lemma QuotientAtLeast(d: nat, x: nat, m: nat)
    requires d > 0 && x >= d * m
    ensures x / d >= m
  {
    MultipleAtLeast(d, m - x / d);
    assert d * (m - x / d) == d * m - d * (x / d);
  }

  /** `sent` and `now` are how long after the start the last packet was sent and the target is chosen:
      the next interval if less than half of one had passed when it was sent, and else the one after. */
  function NextIndex(interval: nat, sent: nat, now: nat): (m: nat)
    requires interval > 0
    ensures m > 0
  {
    now / interval + if sent % interval < interval / 2 then 1 else 2
  }

  /** When the packet was sent in the interval in which the target is chosen, the target is the one after the
      multiple nearest to the sending time: no interval is left out or repeated. */
  lemma NearestThenNext(interval: nat, sent: nat, now: nat, m: nat)
    requires interval > 0 && sent / interval == now / interval
    ensures NextIndex(interval, sent, now) == m + 1
       <==> interval * m - Tolerance(interval) <= sent < interval * m + interval / 2
  {
    var q, r := sent / interval, sent % interval;
    assert sent == interval * q + r;
    var near := NextIndex(interval, sent, now) - 1;
    assert interval * (q + 1) == interval * q + interval;
    assert interval * near - Tolerance(interval) <= sent < interval * near + interval / 2;
    MultipleAtLeast(interval, near - m);
    assert interval * (near - m) == interval * near - interval * m;
  }

  /** How much too early a timer may wake: half an interval, rounded up. */
  function Tolerance(interval: nat): nat { interval - interval / 2 }

  /** The next target lies beyond the last one, even if the timer woke early. */
  lemma TargetAdvances(interval: nat, sent: nat, now: nat, m: nat)
    requires interval > 0 && sent <= now && sent >= interval * m - Tolerance(interval)
    ensures NextIndex(interval, sent, now) > m
  {
    if sent >= interval * m {
      QuotientAtLeast(interval, now, m);
    } else {
      var r := sent - interval * m + interval;
      assert sent == interval * (m - 1) + r;
      RemainderUnique(interval, m - 1, r);
      QuotientAtLeast(interval, now, m - 1);
    }
  }

  /** A timer that wakes any earlier, but within an interval, is sent back to the same target. */
  lemma TargetStalls(interval: nat, early: nat, m: nat)
    requires m > 0 && Tolerance(interval) < early <= interval
    ensures interval * m >= early
    ensures NextIndex(interval, interval * m - early, interval * m - early) == m
  {
    assert interval * m == interval * (m - 1) + interval;
    RemainderUnique(interval, m - 1, interval - early);
    QuotientUnique(interval, m - 1, interval - early);
  }

  /** Every wake-up at most `early` too soon makes progress. */
  ghost predicate Progresses(interval: nat, early: nat, m: nat)
    requires interval > 0
  {
    forall sent: nat, now: nat :: interval * m - early <= sent <= now ==> NextIndex(interval, sent, now) > m
  }

  /** The schedule makes progress exactly for timers within the tolerance. */
  lemma ProgressExactly(interval: nat, early: nat, m: nat)
    requires interval > 1 && m > 0
    ensures Progresses(interval, early, m) <==> early <= Tolerance(interval)
  {
    if early <= Tolerance(interval) {
      forall sent: nat, now: nat | interval * m - early <= sent <= now ensures NextIndex(interval, sent, now) > m {
        TargetAdvances(interval, sent, now, m);
      }
    } else {
      var least := Tolerance(interval) + 1;
      TargetStalls(interval, least, m);
      var sent := interval * m - least;
      assert NextIndex(interval, sent, sent) == m;
    }
  }

  function PCount(duration: nat, interval: nat): nat
    requires interval > 0
  {
    1 + duration / interval
  }

  /** `duration / interval`, rounded up. */
  function Rounds(duration: nat, interval: nat): nat
    requires interval > 0 && duration > 0
  {
    1 + (duration - 1) / interval
  }

  /** `pcount` is one too many if the interval divides the duration. */
  lemma PCountExactly(duration: nat, interval: nat)
    requires interval > 0 && duration > 0
    ensures PCount(duration, interval) == Rounds(duration, interval) + if duration % interval == 0 then 1 else 0
  {
    var q := duration / interval;
    assert duration == interval * q + duration % interval;
    if duration % interval == 0 {
      assert duration - 1 == interval * (q - 1) + (interval - 1);
      QuotientIs(interval, q - 1, interval - 1);
    } else {
      assert duration - 1 == interval * q + (duration % interval - 1);
      QuotientIs(interval, q, duration % interval - 1);
    }
  }

  lemma QuotientIs(d: nat, q: int, r: nat)
    requires r < d && d * q + r >= 0
    ensures (d * q + r) / d == q
  {
    var x := d * q + r;
    assert x == d * (x / d) + x % d;
    MultipleAtLeast(d, x / d - q);
    assert d * (x / d - q) == d * (x / d) - d * q;
  }

  /** A monotone clock, and a timer that may wake up to `early` too soon. */
  class TimeSource {
    var time: int

    constructor (time: int)
      ensures this.time == time
    {
      this.time := time;
    }

    method Now() returns (t: int)
      modifies this
      ensures time == t >= old(time)
    {
      var elapsed: nat :| true;
      time := time + elapsed;
      t := time;
    }

    /** Sleeps for `d`, unless it is cancelled. */
    method Sleep(now: int, d: int, early: nat) returns (ok: bool)
      modifies this
      ensures time >= old(time) && (ok ==> time >= now + d - early)
    {
      var woken: int :| woken >= time && woken >= now + d - early;
      var cancelled: bool :| true;
      ok := !cancelled;
      time := woken;
    }

    /** Sends a packet. `t` is the time just after that. */
    method Transmit() returns (t: int, ok: bool)
      modifies this
      ensures time == t >= old(time)
    {
      t := Now();
      ok :| true;
    }
  }

  datatype Ending = Finished | SendError | TimerError

  /** When the last packet of a batch was sent, and when the next target was chosen. */
  datatype Mark = Mark(sent: int, now: int)

  ghost function Target(start: int, interval: nat, mark: Mark): int
    requires interval > 0 && start <= mark.sent <= mark.now
  {
    start + interval * NextIndex(interval, mark.sent - start, mark.now - start)
  }

  /** A sleep target follows from the times of its batch. It is a multiple of the interval after the start, in
      the future when it is chosen, and before the end. */
  ghost predicate Proper(target: int, mark: Mark, start: int, duration: nat, interval: nat)
    requires interval > 0
  {
    && start <= mark.sent <= mark.now < target < start + duration
    && target == Target(start, interval, mark)
    && (target - start) % interval == 0
  }

  ghost predicate OnSchedule(targets: seq<int>, marks: seq<Mark>, start: int, duration: nat, interval: nat)
    requires interval > 0
  {
    && |targets| <= |marks|
    && (forall k :: 0 <= k < |targets| ==> Proper(targets[k], marks[k], start, duration, interval))
    && (forall k :: 0 < k < |targets| ==> targets[k - 1] < targets[k])
  }

  /** Packet `n` carries the seqno `n`, modulo 2^32, and its record is the `n`-th. */
  ghost predicate Numbered(sent: seq<u32>) {
    forall n :: 0 <= n < |sent| ==> sent[n] == n % 0x1_0000_0000
  }

  lemma IndexedTarget(interval: nat, sent: nat, now: nat)
    requires interval > 0
    ensures interval * NextIndex(interval, sent, now)
         == interval * (now / interval) + if sent % interval < interval / 2 then interval else 2 * interval
  {
    var q := now / interval;
    assert interval * (q + 1) == interval * q + interval;
    assert interval * (q + 2) == interval * q + 2 * interval;
  }

  lemma BeyondNow(interval: nat, sent: nat, now: nat)
    requires interval > 0
    ensures now < interval * NextIndex(interval, sent, now) <= now + 2 * interval
  {
    IndexedTarget(interval, sent, now);
  }

  lemma MultiplesGrow(interval: nat, m: nat, next: nat)
    requires interval > 0 && m < next
    ensures interval * m < interval * next && interval * next % interval == 0
  {
    RemainderUnique(interval, next, 0);
    MultipleAtLeast(interval, next - m);
    assert interval * (next - m) == interval * next - interval * m;
  }

  lemma ProperTarget(mark: Mark, start: int, duration: nat, interval: nat, m: nat)
    requires interval > 0 && start <= mark.sent <= mark.now
    requires NextIndex(interval, mark.sent - start, mark.now - start) > m
    ensures var target := Target(start, interval, mark);
            && target > start + interval * m
            && (target < start + duration ==> Proper(target, mark, start, duration, interval))
  {
    hide NextIndex;
    var next := NextIndex(interval, mark.sent - start, mark.now - start);
    MultiplesGrow(interval, m, next);
    BeyondNow(interval, mark.sent - start, mark.now - start);
  }

  lemma ScheduleGrows(targets: seq<int>, marks: seq<Mark>, start: int, duration: nat, interval: nat,
                      mark: Mark, target: int)
    requires interval > 0 && |marks| == |targets|
    requires OnSchedule(targets, marks, start, duration, interval)
    requires Proper(target, mark, start, duration, interval)
    requires targets != [] ==> targets[|targets| - 1] < target
    ensures OnSchedule(targets + [target], marks + [mark], start, duration, interval)
  {
    hide Proper;
  }

  lemma LongerMarks(targets: seq<int>, marks: seq<Mark>, mark: Mark, start: int, duration: nat, interval: nat)
    requires interval > 0 && OnSchedule(targets, marks, start, duration, interval)
    ensures OnSchedule(targets, marks + [mark], start, duration, interval)
  {
  }

  ghost predicate IsMultiple(t: int, start: int, interval: nat, m: nat) { t == start + interval * m }

  lemma RoundsPositive(duration: nat, interval: nat)
    requires interval > 0 && duration > 0
    ensures Rounds(duration, interval) > 0
  {
  }

  lemma RoundsAtLeast(duration: nat, interval: nat, m: nat)
    requires interval > 0 && interval * m < duration
    ensures m < Rounds(duration, interval)
  {
    QuotientAtLeast(interval, duration - 1, m);
  }

  /** `rounds * multiply`, by addition: see `BatchesProduct`. */
  function Batches(rounds: nat, multiply: nat): nat {
    if rounds == 0 then 0 else Batches(rounds - 1, multiply) + multiply
  }

  lemma {:induction false} BatchesProduct(rounds: nat, multiply: nat)
    ensures Batches(rounds, multiply) == rounds * multiply
  {
    if rounds > 0 {
      BatchesProduct(rounds - 1, multiply);
    }
  }

  lemma NumberedPush(sent: seq<u32>)
    requires Numbered(sent)
    ensures Numbered(sent + [AddU32(0, |sent|)])
  {
  }

  class Sender {
    const clock: TimeSource
    const seqno: array<u32>
    /** How many records the recorder holds. */
    var records: nat
    /** The seqnos that were sent without an error. */
    var sent: seq<u32>

    ghost predicate Consistent()
      reads this
    {
      Numbered(sent) && records == |sent|
    }

    /** Slot `k` holds the seqno of the packet that comes after `base + k` others. */
    ghost predicate Holds(base: nat)
      reads seqno
    {
      forall k :: 0 <= k < seqno.Length ==> seqno[k] == AddU32(0, base + k)
    }

    constructor (clock: TimeSource, multiply: nat)
      requires multiply > 0
      ensures Consistent() && sent == [] && Holds(0)
      ensures fresh(seqno) && seqno.Length == multiply && this.clock == clock
    {
      this.clock := clock;
      var slots := new u32[multiply];
      for i := 0 to multiply
        invariant forall k :: 0 <= k < i ==> slots[k] == AddU32(0, k)
      {
        slots[i] := AddU32(0, i);
      }
      seqno := slots;
      records, sent := 0, [];
    }

    /** Sends one packet of each slot. `tsent` is when the last one was sent. */
    method SendBatch() returns (tsent: int, ok: bool)
      requires seqno.Length > 0 && Consistent() && Holds(|sent|)
      modifies this, clock
      ensures Consistent() && old(sent) <= sent
      ensures tsent == clock.time >= old(clock.time)
      ensures ok ==> |sent| == |old(sent)| + seqno.Length
    {
      tsent := clock.time;
      for j := 0 to seqno.Length
        invariant Consistent() && |sent| == |old(sent)| + j && old(sent) <= sent
        invariant tsent == clock.time >= old(clock.time)
        invariant Holds(|old(sent)|)
      {
        records := records + 1;
        tsent, ok := clock.Transmit();
        if !ok {
          records := records - 1;
          return;
        }
        NumberedPush(sent);
        sent := sent + [seqno[j]];
      }
      ok := true;
    }

    /** Moves every slot on to its next seqno. */
    method Advance(base: nat)
      requires Holds(base)
      modifies seqno
      ensures Holds(base + seqno.Length)
    {
      for k := 0 to seqno.Length
        invariant forall i :: 0 <= i < k ==> seqno[i] == AddU32(0, base + seqno.Length + i)
        invariant forall i :: k <= i < seqno.Length ==> seqno[i] == AddU32(0, base + i)
      {
        AddU32Twice(0, base + k, seqno.Length);
        seqno[k] := AddU32(seqno[k], seqno.Length);
      }
    }

    /** Sends a batch and prepares the next one. */
    method SendRound(ghost round: nat) returns (tsent: int, ok: bool)
      requires seqno.Length > 0 && Consistent() && Holds(|sent|)
      requires round > 0 && |sent| == Batches(round - 1, seqno.Length)
      modifies this, clock, seqno
      ensures Consistent()
      ensures tsent == clock.time >= old(clock.time)
      ensures ok ==> Holds(|sent|) && |sent| == Batches(round, seqno.Length)
    {
      tsent, ok := SendBatch();
      if ok {
        Advance(|sent| - seqno.Length);
      }
    }

    method SleepUntil(tnext: int, early: nat) returns (ok: bool)
      modifies clock
      ensures clock.time >= old(clock.time) && (ok ==> clock.time >= tnext - early)
    {
      var tsleep := clock.Now();
      ok := clock.Sleep(tsleep, tnext - tsleep, early);
    }

    /** When to sleep until. The last sleep was meant to end at `aim`, multiple `m` of the interval. */
    method NextTarget(start: int, tsent: int, duration: nat, interval: nat, early: nat, ghost aim: int, ghost m: nat)
      returns (tnext: int, mark: Mark, ghost next: nat)
      requires interval > 0 && early <= Tolerance(interval) && duration > 0
      requires start <= tsent <= clock.time && tsent >= aim - early && IsMultiple(aim, start, interval, m)
      modifies clock
      ensures start <= mark.sent == tsent <= mark.now == clock.time
      ensures tnext == Target(start, interval, mark) > aim
      ensures next > m && IsMultiple(tnext, start, interval, next)
      ensures tnext < start + duration ==>
                next < Rounds(duration, interval) && Proper(tnext, mark, start, duration, interval)
    {
      var now := clock.Now();
      tnext := start + interval * ((now - start) / interval);
      if (tsent - start) % interval < interval / 2 {
        tnext := tnext + interval;
      } else {
        tnext := tnext + 2 * interval;
      }
      mark := Mark(tsent, now);
      next := NextIndex(interval, tsent - start, now - start);
      TargetAdvances(interval, tsent - start, now - start, m);
      IndexedTarget(interval, tsent - start, now - start);
      ProperTarget(mark, start, duration, interval, m);
      if tnext < start + duration {
        RoundsAtLeast(duration, interval, next);
      }
    }

    /** The whole test. Every sleep may end up to `early` too soon. `rounds` counts the batches that were
        sent, or at least begun. */
    method Send(duration: nat, interval: nat, early: nat)
      returns (start: int, targets: seq<int>, marks: seq<Mark>, rounds: nat, end: Ending)
      requires duration > 0 && interval > 0 && early <= Tolerance(interval)
      requires seqno.Length > 0 && Consistent() && sent == [] && Holds(0)
      modifies this, clock, seqno
      ensures Consistent()
      ensures OnSchedule(targets, marks, start, duration, interval)
      ensures |targets| <= rounds <= Rounds(duration, interval)
      ensures end == Finished ==>
                && |sent| == Batches(rounds, seqno.Length) && rounds == |marks| == |targets| + 1
                && start <= marks[|targets|].sent <= marks[|targets|].now
                && Target(start, interval, marks[|targets|]) >= start + duration
    {
      start := clock.Now();
      targets, marks, rounds := [], [], 0;
      ghost var m, aim := 0, start;
      assert IsMultiple(aim, start, interval, m);
      assert OnSchedule(targets, marks, start, duration, interval);
      assert Batches(rounds, seqno.Length) == 0;
      RoundsPositive(duration, interval);
      hide *;
      while true
        invariant Consistent() && Holds(|sent|) && |sent| == Batches(rounds, seqno.Length)
        invariant clock.time >= start && clock.time >= aim - early && IsMultiple(aim, start, interval, m)
        invariant rounds == |targets| == |marks| <= m < Rounds(duration, interval)
        invariant OnSchedule(targets, marks, start, duration, interval)
        invariant targets != [] ==> targets[|targets| - 1] == aim
        decreases Rounds(duration, interval) - m
      {
        rounds := rounds + 1;
        var tsent, ok := SendRound(rounds);
        if !ok {
          end := SendError;
          return;
        }

        var tnext, mark, next := NextTarget(start, tsent, duration, interval, early, aim, m);
        if tnext >= start + duration {
          LongerMarks(targets, marks, mark, start, duration, interval);
          marks := marks + [mark];
          break;
        }

        ScheduleGrows(targets, marks, start, duration, interval, mark, tnext);
        targets, marks := targets + [tnext], marks + [mark];
        m, aim := next, tnext;
        ok := SleepUntil(tnext, early);
        if !ok {
          end := TimerError;
          return;
        }
      }
      end := Finished;
    }
  }
}
