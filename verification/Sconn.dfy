/** The server's state for one client connection. */
module ServerConn {
  import opened Config
  import opened Numbers
  import opened Times
  import opened TokenBucket
  import opened Window

  datatype Arrival = Arrival(time: int, seqno: u32)

  function TimesOf(arrivals: seq<Arrival>): (times: seq<int>)
    ensures |times| == |arrivals|
  {
    seq(|arrivals|, i requires 0 <= i < |arrivals| => arrivals[i].time)
  }

  /** The seqnos that the rate limit lets through, in order. */
  function AcceptedSeqnos(cfg: ServerConfig, arrivals: seq<Arrival>): seq<u32> {
    if arrivals == [] then []
    else
      var accepted := AcceptedSeqnos(cfg, arrivals[..|arrivals| - 1]);
      if Admits(cfg, TimesOf(arrivals)) then accepted + [arrivals[|arrivals| - 1].seqno] else accepted
  }

  lemma AcceptedOfPush(cfg: ServerConfig, arrivals: seq<Arrival>, arrival: Arrival)
    ensures AcceptedSeqnos(cfg, arrivals + [arrival])
         == if Admits(cfg, TimesOf(arrivals + [arrival]))
            then AcceptedSeqnos(cfg, arrivals) + [arrival.seqno] else AcceptedSeqnos(cfg, arrivals)
  {
    assert (arrivals + [arrival])[..|arrivals|] == arrivals;
  }

  lemma CountIs(n: nat)
    ensures AddU32(0, n) == n % 0x1_0000_0000
  {
  }

  datatype Outcome =
    | LargeRequest
    | ShortInterval
    | Served(receivedCount: u32, receivedWindow: u64, closed: bool)

  class Sconn {
    const cfg: ServerConfig
    var firstUsed: Option<int>
    var lastUsed: Option<int>
    var packetBucket: real
    var lastSeqno: u32
    var receivedCount: u32
    var receivedWindow: u64
    var rwinValid: bool
    /** Every request that was small enough, in order of arrival. */
    ghost var arrivals: seq<Arrival>

    ghost function Accepted(): seq<u32>
      reads this
    {
      AcceptedSeqnos(cfg, arrivals)
    }

    ghost predicate LimitValid()
      reads this
    {
      && packetBucket == Bucket(cfg, TimesOf(arrivals))
      && lastUsed == (if arrivals == [] then None else Some(arrivals[|arrivals| - 1].time))
      && firstUsed == (if arrivals == [] then None else Some(arrivals[0].time))
    }

    /** The window fields are those of a connection that accepted `h`. */
    ghost predicate Reflects(h: seq<u32>)
      reads this
    {
      && lastSeqno == LastOf(h)
      && receivedCount == AddU32(0, |h|)
      && receivedWindow == WindowOf(h)
      && rwinValid == (h != [])
    }

    ghost predicate Valid()
      reads this
    {
      LimitValid() && Reflects(Accepted())
    }

    constructor (cfg: ServerConfig)
      ensures Valid() && arrivals == [] && this.cfg == cfg
    {
      this.cfg := cfg;
      firstUsed, lastUsed := None, None;
      packetBucket := cfg.packetBurst as real;
      lastSeqno := INVALID_SEQNO;
      receivedCount, receivedWindow, rwinValid := 0, 0, false;
      arrivals := [];
    }

    /** Handles a request that arrives at `now`. `later` is the clock when the test's duration is checked. */
    method ServeEcho(seqno: u32, length: int, now: int, later: int) returns (outcome: Outcome)
      requires Valid()
      modifies this
      ensures Valid()
      ensures outcome.LargeRequest? <==> TooLarge(cfg, length)
      ensures arrivals == old(arrivals) + if outcome.LargeRequest? then [] else [Arrival(now, seqno)]
      ensures outcome.ShortInterval? <==> !outcome.LargeRequest? && !Admits(cfg, TimesOf(arrivals))
      ensures outcome.Served? ==>
                && Accepted() == old(Accepted()) + [seqno]
                && outcome.receivedCount == |Accepted()| % 0x1_0000_0000
                && outcome.receivedWindow == WindowOf(Accepted())
                && (outcome.closed <==> cfg.maxDuration > 0
                                        && later > arrivals[0].time + cfg.maxDuration + 2 * SECOND)
      ensures !outcome.Served? ==> Accepted() == old(Accepted())
    {
      hide AddU32, WindowOf, LastOf, Admits, AcceptedSeqnos, Bucket;
      if cfg.maxLength > 0 && length > cfg.maxLength {
        return LargeRequest;
      }
      var admitted := TakeToken(seqno, now);
      if !admitted {
        return ShortInterval;
      }
      SlideWindow(seqno, old(Accepted()));
      CountIs(|Accepted()|);
      outcome := Served(receivedCount, if rwinValid then receivedWindow else 0,
                        Expired(cfg, firstUsed.value, later));
    }

    /** Enforces the minimum interval. */
    method TakeToken(seqno: u32, now: int) returns (admitted: bool)
      requires LimitValid()
      modifies this`firstUsed, this`lastUsed, this`packetBucket, this`arrivals
      ensures LimitValid() && arrivals == old(arrivals) + [Arrival(now, seqno)]
      ensures admitted == Admits(cfg, TimesOf(arrivals))
      ensures Accepted() == if admitted then old(Accepted()) + [seqno] else old(Accepted())
    {
      AcceptedOfPush(cfg, arrivals, Arrival(now, seqno));
      arrivals := arrivals + [Arrival(now, seqno)];
      ghost var times := TimesOf(arrivals);
      assert times[..|times| - 1] == old(TimesOf(arrivals));
      if firstUsed.None? {
        firstUsed := Some(now);
      }
      if cfg.minInterval > 0 {
        if lastUsed.Some? {
          packetBucket := packetBucket + (now - lastUsed.value) as real / cfg.minInterval as real;
          if packetBucket > cfg.packetBurst as real {
            packetBucket := cfg.packetBurst as real;
          }
        }
        assert packetBucket == Refilled(cfg, times);
        if packetBucket < 1.0 {
          lastUsed := Some(now);
          return false;
        }
        packetBucket := packetBucket - 1.0;
      }
      lastUsed := Some(now);
      return true;
    }

    method SlideWindow(seqno: u32, ghost h: seq<u32>)
      requires Reflects(h)
      modifies this`receivedWindow, this`rwinValid, this`receivedCount, this`lastSeqno
      ensures Reflects(h + [seqno])
    {
      var sinceLastSeqno := Since(seqno, lastSeqno);
      var window := receivedWindow;
      if sinceLastSeqno > 0 {
        window := ShiftLeft(window, sinceLastSeqno);
      }
      receivedWindow := SetLowBit(window);
      rwinValid := true;
      receivedCount := AddU32(receivedCount, 1);
      lastSeqno := seqno;
      WindowOfPush(h, seqno);
      AddU32Twice(0, |h|, 1);
    }
  }
}
