/** The rate limit of `serveEcho`: a token bucket over exact reals. */
module TokenBucket {
  import opened Config

  /** The tokens earned in `d` nanoseconds. */
  function Earned(cfg: ServerConfig, d: int): real
    requires cfg.minInterval > 0
  {
    d as real / cfg.minInterval as real
  }

  /** The tokens held when the last of `times` is judged: a full bucket for the first request. */
  function Refilled(cfg: ServerConfig, times: seq<int>): real
    requires cfg.minInterval > 0 && times != []
    decreases |times|, 0
  {
    if |times| == 1 then cfg.packetBurst as real
    else
      var prev := times[..|times| - 1];
      var b := Bucket(cfg, prev) + Earned(cfg, times[|times| - 1] - times[|times| - 2]);
      if b > cfg.packetBurst as real then cfg.packetBurst as real else b
  }

  /** The tokens left after judging requests that arrived at `times`. */
  function Bucket(cfg: ServerConfig, times: seq<int>): real
    decreases |times|, 1
  {
    if cfg.minInterval <= 0 || times == [] then cfg.packetBurst as real
    else if Refilled(cfg, times) < 1.0 then Refilled(cfg, times)
    else Refilled(cfg, times) - 1.0
  }

  /** Whether the last of `times` is accepted. */
  predicate Admits(cfg: ServerConfig, times: seq<int>)
    requires times != []
  {
    cfg.minInterval <= 0 || Refilled(cfg, times) >= 1.0
  }

  /** How many of the requests at `times[i..]` are accepted. */
  function AcceptedCount(cfg: ServerConfig, times: seq<int>, i: nat): nat {
    if |times| <= i then 0
    else AcceptedCount(cfg, times[..|times| - 1], i) + if Admits(cfg, times) then 1 else 0
  }

  ghost predicate Nondecreasing(times: seq<int>) {
    forall i, j :: 0 <= i <= j < |times| ==> times[i] <= times[j]
  }

  /** One token for each whole interval. */
  lemma EarnedIsRate(cfg: ServerConfig, d: int)
    requires cfg.minInterval > 0
    ensures Earned(cfg, d) * cfg.minInterval as real == d as real
  {
  }

  /** What a stretch of requests from `times[i]` to the last one may still spend on the last one, in nanoseconds:
      an interval for each token of the burst, and the time elapsed, less an interval for each request accepted. */
  ghost function Allowance(cfg: ServerConfig, times: seq<int>, i: nat): int
    requires i < |times|
  {
    (cfg.packetBurst - AcceptedCount(cfg, times[..|times| - 1], i)) * cfg.minInterval
    + times[|times| - 1] - times[i]
  }

  lemma AllowanceStep(cfg: ServerConfig, times: seq<int>, i: nat)
    requires cfg.minInterval > 0 && |times| > 1 && i < |times| - 1
    ensures Allowance(cfg, times, i)
         == Allowance(cfg, times[..|times| - 1], i)
            - (if Admits(cfg, times[..|times| - 1]) then cfg.minInterval else 0)
            + times[|times| - 1] - times[|times| - 2]
  {
    var prev := times[..|times| - 1];
    var n := AcceptedCount(cfg, prev[..|prev| - 1], i);
    hide Admits;
    assert AcceptedCount(cfg, prev, i) == n + if Admits(cfg, prev) then 1 else 0;
    assert (cfg.packetBurst - (n + 1)) * cfg.minInterval == (cfg.packetBurst - n) * cfg.minInterval - cfg.minInterval;
  }

  /** The tokens of the refilled bucket, in nanoseconds. */
  ghost function Level(cfg: ServerConfig, times: seq<int>): real
    requires cfg.minInterval > 0 && times != []
  {
    Refilled(cfg, times) * cfg.minInterval as real
  }

  ghost function Full(cfg: ServerConfig): int { cfg.packetBurst * cfg.minInterval }

  lemma FirstLevel(cfg: ServerConfig, times: seq<int>)
    requires cfg.minInterval > 0 && |times| == 1
    ensures Level(cfg, times) == Full(cfg) as real
  {
  }

  /** The bucket is refilled up to the burst. */
  lemma LevelStep(cfg: ServerConfig, times: seq<int>)
    requires cfg.minInterval > 0 && |times| > 1
    ensures var prev, elapsed := times[..|times| - 1], times[|times| - 1] - times[|times| - 2];
            var level := Level(cfg, prev) - (if Admits(cfg, prev) then cfg.minInterval as real else 0.0)
                         + elapsed as real;
            Level(cfg, times) == if level > Full(cfg) as real then Full(cfg) as real else level
  {
    hide Earned, Refilled, Bucket, Admits;
    var prev, elapsed := times[..|times| - 1], times[|times| - 1] - times[|times| - 2];
    var m, burst := cfg.minInterval as real, cfg.packetBurst as real;
    EarnedIsRate(cfg, elapsed);
    RefillMeans(cfg, times);
    Scaled(Refilled(cfg, prev), if Admits(cfg, prev) then 1.0 else 0.0, Earned(cfg, elapsed), m);
    Scales(Bucket(cfg, prev) + Earned(cfg, elapsed), burst, m);
  }

  lemma RefillMeans(cfg: ServerConfig, times: seq<int>)
    requires cfg.minInterval > 0 && |times| > 1
    ensures var prev := times[..|times| - 1];
            var b := Bucket(cfg, prev) + Earned(cfg, times[|times| - 1] - times[|times| - 2]);
            && Refilled(cfg, times) == (if b > cfg.packetBurst as real then cfg.packetBurst as real else b)
            && Bucket(cfg, prev) == Refilled(cfg, prev) - if Admits(cfg, prev) then 1.0 else 0.0
  {
    hide Earned;
  }

  lemma Scaled(x: real, y: real, z: real, m: real)
    ensures (x - y + z) * m == x * m - y * m + z * m
  {
  }

  lemma Scales(x: real, y: real, m: real)
    requires m > 0.0
    ensures x > y <==> x * m > y * m
  {
  }

  /** The refilled bucket holds the least allowance of all stretches that end at the request being judged. */
  lemma {:induction false} BucketIsLeastAllowance(cfg: ServerConfig, times: seq<int>) returns (least: nat)
    requires cfg.minInterval > 0 && times != []
    ensures least < |times|
    ensures Refilled(cfg, times) * cfg.minInterval as real == Allowance(cfg, times, least) as real
    ensures forall i :: 0 <= i < |times| ==> Allowance(cfg, times, least) <= Allowance(cfg, times, i)
    decreases |times|
  {
    hide Refilled, Bucket, Admits;
    var last := |times| - 1;
    assert Allowance(cfg, times, last) == Full(cfg) by {
      assert AcceptedCount(cfg, times[..last], last) == 0;
    }
    if last == 0 {
      least := 0;
      FirstLevel(cfg, times);
    } else {
      var prev := times[..last];
      least := BucketIsLeastAllowance(cfg, prev);
      LevelStep(cfg, times);
      forall i | 0 <= i < last ensures Allowance(cfg, times, i) - Allowance(cfg, times, least)
                                    == Allowance(cfg, prev, i) - Allowance(cfg, prev, least) {
        AllowanceStep(cfg, times, i);
        AllowanceStep(cfg, times, least);
      }
      AllowanceStep(cfg, times, least);
      hide AcceptedCount, Allowance;
      if Allowance(cfg, times, least) > Full(cfg) {
        least := last;
      }
    }
  }

  lemma WholeToken(x: real, m: int, level: int)
    requires m > 0 && x * m as real == level as real
    ensures x >= 1.0 <==> level >= m
  {
    Scales(1.0, x, m as real);
  }

  /** A request is accepted exactly when no stretch of requests that ends with it would then exceed the burst plus
      one request for each interval elapsed. */
  lemma AdmitsExactly(cfg: ServerConfig, times: seq<int>)
    requires cfg.minInterval > 0 && times != []
    ensures Admits(cfg, times) <==> forall i :: 0 <= i < |times| ==> Allowance(cfg, times, i) >= cfg.minInterval
  {
    hide Allowance, Refilled;
    var least := BucketIsLeastAllowance(cfg, times);
    WholeToken(Refilled(cfg, times), cfg.minInterval, Allowance(cfg, times, least));
  }

  /** Any contiguous stretch of requests has at most `packetBurst + elapsed / minInterval` accepted. */
  lemma {:induction false} StretchBounded(cfg: ServerConfig, times: seq<int>, i: nat)
    requires cfg.minInterval > 0 && i < |times| && Nondecreasing(times)
    ensures AcceptedCount(cfg, times, i) == 0
         || (AcceptedCount(cfg, times, i) - cfg.packetBurst) * cfg.minInterval <= times[|times| - 1] - times[i]
  {
    hide Admits, Refilled, Bucket;
    if Admits(cfg, times) {
      AdmitsExactly(cfg, times);
      assert Allowance(cfg, times, i) >= cfg.minInterval;
      var n := AcceptedCount(cfg, times[..|times| - 1], i);
      assert AcceptedCount(cfg, times, i) == n + 1;
      Regroup(cfg.packetBurst, n, cfg.minInterval);
    } else if i < |times| - 1 {
      StretchBounded(cfg, times[..|times| - 1], i);
    }
  }

  lemma Regroup(burst: int, n: int, m: int)
    ensures (n + 1 - burst) * m == m - (burst - n) * m
  {
  }

  ghost predicate NoneDropped(cfg: ServerConfig, times: seq<int>) {
    forall j :: 0 < j <= |times| ==> Admits(cfg, times[..j])
  }

  /** Requests `times[i..j]` arrive no faster than the limit. */
  ghost predicate Conforms(cfg: ServerConfig, times: seq<int>, i: nat, j: nat)
    requires i < j <= |times|
  {
    (j - i - cfg.packetBurst) * cfg.minInterval <= times[j - 1] - times[i]
  }

  lemma {:induction false} AllAccepted(cfg: ServerConfig, times: seq<int>, i: nat)
    requires NoneDropped(cfg, times) && i <= |times|
    ensures AcceptedCount(cfg, times, i) == |times| - i
  {
    if i < |times| {
      var prev := times[..|times| - 1];
      assert times[..|times|] == times;
      assert forall j :: 0 < j <= |prev| ==> prev[..j] == times[..j];
      AllAccepted(cfg, prev, i);
    }
  }

  /** A run loses nothing to the rate limit exactly when every contiguous stretch of it conforms. */
  lemma {:induction false} NoDropsExactly(cfg: ServerConfig, times: seq<int>)
    requires cfg.minInterval > 0
    ensures NoneDropped(cfg, times) <==> forall i, j :: 0 <= i < j <= |times| ==> Conforms(cfg, times, i, j)
  {
    if times != [] {
      var n := |times|;
      var prev := times[..n - 1];
      NoDropsExactly(cfg, prev);
      assert times[..n] == times;
      assert forall j :: 0 < j < n ==> prev[..j] == times[..j];
      assert NoneDropped(cfg, times) <==> NoneDropped(cfg, prev) && Admits(cfg, times);
      assert forall i, j :: 0 <= i < j < n ==> Conforms(cfg, prev, i, j) == Conforms(cfg, times, i, j);
      if NoneDropped(cfg, prev) {
        AdmitsExactly(cfg, times);
        forall i | 0 <= i < n
          ensures Conforms(cfg, times, i, n) <==> Allowance(cfg, times, i) >= cfg.minInterval
        {
          AllAccepted(cfg, prev, i);
          Regroup(cfg.packetBurst, n - 1 - i, cfg.minInterval);
        }
      }
    }
  }
}
