/** Wall and monotonic times, and the enumerations that select them. */
module Times {
  import opened Numbers

  /** int64 arithmetic wraps around. */
  function Wrap(x: int): i64 {
    (x + 0x8000_0000_0000_0000) % 0x1_0000_0000_0000_0000 - 0x8000_0000_0000_0000
  }

  lemma WrapSum(a: int, b: int)
    ensures Wrap(Wrap(a) + b) == Wrap(a + b)
  {
    var q := (a + 0x8000_0000_0000_0000) / 0x1_0000_0000_0000_0000;
    assert Wrap(a) + b == a + b - q * 0x1_0000_0000_0000_0000;
  }

  /** Go's integer division truncates toward zero. */
  function Quotient(a: int, b: int): int
    requires b > 0
  {
    if a >= 0 then a / b else -(-a / b)
  }

  const INVALID_DURATION: i64 := 0x7FFF_FFFF_FFFF_FFFF
  const SECOND: int := 1_000_000_000

  const WALL := 1
  const MONOTONIC := 2

  /** Which clocks are used: 1 is wall, 2 is monotonic, 3 is both. */
  type Clock = c: nat | 1 <= c <= 3 witness 3

  /** A clock parameter: 0 if it was left out of the parameters. */
  type ClockParam = c: nat | c <= 3

  const AT_NONE := 0
  const AT_SEND := 1
  const AT_RECEIVE := 2
  const AT_BOTH := 3
  const AT_MIDPOINT := 4

  type StampAt = a: nat | a <= 4

  const COUNT := 1
  const WINDOW := 2

  type ReceivedStats = r: nat | r <= 3

  datatype AllowStamp = NoStamp | SingleStamp | DualStamps {
    function Restrict(at: i64): i64 {
      if at == AT_NONE then AT_NONE
      else match this
        case NoStamp => AT_NONE
        case SingleStamp => if at == AT_BOTH then AT_MIDPOINT else at
        case DualStamps => at
    }
  }

  /** A value of zero means that the clock was not read. */
  datatype Time = Time(wall: i64, mono: i64) {
    predicate IsZero() { wall == 0 && mono == 0 }

    /** `Sub`, `Before` and `After` panic on times that have no clock in common. */
    predicate Comparable(u: Time) {
      (mono != 0 && u.mono != 0) || (wall != 0 && u.wall != 0)
    }

    function Sub(u: Time): i64
      requires Comparable(u)
    {
      if mono != 0 && u.mono != 0 then Wrap(mono - u.mono) else Wrap(wall - u.wall)
    }

    function Add(d: i64): Time
      requires !IsZero()
    {
      Time(if wall != 0 then Wrap(wall + d) else 0, if mono != 0 then Wrap(mono + d) else 0)
    }

    function Midpoint(u: Time): Time
      requires Comparable(u)
    {
      Add(Quotient(u.Sub(this), 2))
    }

    /** `m` is this time after every clock that it has has moved on by `d`. */
    predicate MovedBy(d: int, m: Time) {
      && m.wall == (if wall != 0 then Wrap(wall + d) else 0)
      && m.mono == (if mono != 0 then Wrap(mono + d) else 0)
    }

    function KeepClocks(c: Clock): Time {
      Time(if Has(c, WALL) then wall else 0, if Has(c, MONOTONIC) then mono else 0)
    }

    /** Exactly the clocks of `c` have been read. */
    predicate Reads(c: Clock) {
      (wall != 0 <==> Has(c, WALL)) && (mono != 0 <==> Has(c, MONOTONIC))
    }
  }

  const ZERO_TIME := Time(0, 0)

  predicate HasWall(c: ClockParam) { c == 1 || c == 3 }

  predicate HasMono(c: ClockParam) { c == 2 || c == 3 }

  /** `t` by the clocks of `c` alone. */
  function Only(t: Time, c: ClockParam): Time {
    Time(if HasWall(c) then t.wall else 0, if HasMono(c) then t.mono else 0)
  }

  /** `h` is half of `d`, rounded towards zero. */
  predicate IsHalf(h: int, d: int) { (h >= 0 && 0 <= d - 2 * h <= 1) || (h <= 0 && -1 <= d - 2 * h <= 0) }

  /** From `t` to `u`, on the monotonic clock if both have it. */
  function Gap(t: Time, u: Time): int {
    if t.mono != 0 && u.mono != 0 then Wrap(u.mono - t.mono) else Wrap(u.wall - t.wall)
  }

  /** `m` is halfway from `t` to `u`: every clock of `t` has moved on by half of the gap. */
  ghost predicate Halfway(t: Time, u: Time, m: Time) { exists h: int :: IsHalf(h, Gap(t, u)) && t.MovedBy(h, m) }

  lemma HalfIsQuotient(h: int, d: int)
    ensures IsHalf(h, d) <==> h == Quotient(d, 2)
  {
  }

  lemma MidpointExactly(t: Time, u: Time, m: Time)
    requires t.Comparable(u)
    ensures Halfway(t, u, m) <==> m == t.Midpoint(u)
  {
    hide Quotient, Wrap, IsHalf, Time.MovedBy, Time.Add, Time.Sub, Gap;
    GapIsDifference(t, u);
    AddMoves(t, Quotient(Gap(t, u), 2), m);
    forall h: int ensures IsHalf(h, Gap(t, u)) <==> h == Quotient(Gap(t, u), 2) {
      HalfIsQuotient(h, Gap(t, u));
    }
  }

  lemma GapIsDifference(t: Time, u: Time)
    requires t.Comparable(u)
    ensures Gap(t, u) == u.Sub(t) && -0x8000_0000_0000_0000 <= Quotient(Gap(t, u), 2) < 0x8000_0000_0000_0000
    ensures !t.IsZero()
  {
    hide Wrap;
  }

  lemma AddMoves(t: Time, d: i64, m: Time)
    requires !t.IsZero()
    ensures t.MovedBy(d, m) <==> m == t.Add(d)
  {
    hide Wrap;
  }

  /** `m` lies between `a` and `b`, as near to the one as to the other, give or take a nanosecond. */
  predicate Between(a: int, m: int, b: int) {
    (a <= m <= b || b <= m <= a) && -1 <= (b - m) - (m - a) <= 1
  }

  /** Far from where int64 wraps around. */
  predicate Small(x: int) { -0x2000_0000_0000_0000 <= x < 0x2000_0000_0000_0000 }

  predicate HalfSmall(h: int) { -0x2000_0000_0000_0000 <= h <= 0x2000_0000_0000_0000 }

  lemma HalfIsBetween(a: i64, b: i64, h: int)
    requires Small(a) && Small(b) && IsHalf(h, Wrap(b - a))
    ensures Between(a, a + h, b) && HalfSmall(h)
  {
  }

  lemma SmallSum(x: i64, h: int)
    requires Small(x) && HalfSmall(h)
    ensures Wrap(x + h) == x + h
  {
  }

  /** How far the clocks of `t` move. */
  lemma HalfwayMoves(t: Time, u: Time, m: Time) returns (h: int)
    requires Halfway(t, u, m) && Small(t.wall) && Small(t.mono) && Small(u.wall) && Small(u.mono)
    ensures m.wall == if t.wall != 0 then t.wall + h else 0
    ensures m.mono == if t.mono != 0 then t.mono + h else 0
    ensures t.mono != 0 && u.mono != 0 ==> Between(t.mono, t.mono + h, u.mono)
    ensures t.mono == 0 || u.mono == 0 ==> Between(t.wall, t.wall + h, u.wall)
  {
    hide Wrap, IsHalf, Between, Small, Gap, Time.MovedBy;
    h :| IsHalf(h, Gap(t, u)) && t.MovedBy(h, m);
    HalfGap(t, u, h);
    MovedSmall(t, h, m);
  }

  lemma HalfGap(t: Time, u: Time, h: int)
    requires IsHalf(h, Gap(t, u)) && Small(t.wall) && Small(t.mono) && Small(u.wall) && Small(u.mono)
    ensures t.mono != 0 && u.mono != 0 ==> Between(t.mono, t.mono + h, u.mono)
    ensures t.mono == 0 || u.mono == 0 ==> Between(t.wall, t.wall + h, u.wall)
    ensures HalfSmall(h)
  {
    hide Wrap, IsHalf, Between, Small, HalfSmall;
    if t.mono != 0 && u.mono != 0 {
      HalfIsBetween(t.mono, u.mono, h);
    } else {
      HalfIsBetween(t.wall, u.wall, h);
    }
  }

  lemma MovedSmall(t: Time, h: int, m: Time)
    requires t.MovedBy(h, m) && Small(t.wall) && Small(t.mono) && HalfSmall(h)
    ensures m.wall == if t.wall != 0 then t.wall + h else 0
    ensures m.mono == if t.mono != 0 then t.mono + h else 0
  {
    hide Wrap, Small, HalfSmall;
    SmallSum(t.wall, h);
    SmallSum(t.mono, h);
  }

  /** If no clock wraps around, the midpoint lies between the times on the clock that they share, and the clocks of
      `t` move together. */
  lemma HalfwayIsBetween(t: Time, u: Time, m: Time)
    requires t.Comparable(u) && Halfway(t, u, m)
    requires Small(t.wall) && Small(t.mono) && Small(u.wall) && Small(u.mono)
    ensures t.mono != 0 && u.mono != 0 ==> Between(t.mono, m.mono, u.mono)
    ensures t.mono == 0 || u.mono == 0 ==> Between(t.wall, m.wall, u.wall)
    ensures t.wall != 0 && t.mono != 0 ==> m.wall - t.wall == m.mono - t.mono
    ensures (t.wall == 0 ==> m.wall == 0) && (t.mono == 0 ==> m.mono == 0)
  {
    hide Halfway, Small, Between;
    var h := HalfwayMoves(t, u, m);
  }

  datatype Timestamp = Timestamp(receive: Time, send: Time) {
    function BestSend(): Time { if send.IsZero() then receive else send }

    function BestReceive(): Time { if receive.IsZero() then send else receive }

    predicate IsBothMono() { receive.mono != 0 && send.mono != 0 }

    predicate IsBothWall() { receive.wall != 0 && send.wall != 0 }
  }
}
