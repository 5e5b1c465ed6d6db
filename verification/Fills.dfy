/** Fill parameters: which filler a string asks for, and which globs let an empty pattern through. */
module Fills {
  import opened Filler
  import opened Glob
  import opened Numbers

  const COLON: byte := ':' as int

  const NONE: bytes := [110, 111, 110, 101]
  const RAND: bytes := [114, 97, 110, 100]
  const PATTERN: bytes := [112, 97, 116, 116, 101, 114, 110]
  /** `irtt` */
  const DEFAULT_PATTERN: bytes := [105, 114, 116, 116]

  /** Up to the first colon: the first of `strings.Split(s, ":")`. */
  function FirstPart(s: bytes): bytes { if s == [] || s[0] == COLON then [] else [s[0]] + FirstPart(s[1..]) }

  /** What follows the first colon. */
  function AfterColon(s: bytes): Option<bytes> {
    if s == [] then None
    else if s[0] == COLON then Some(s[1..])
    else AfterColon(s[1..])
  }

  function HexDigit(c: byte): Option<byte> {
    if 48 <= c <= 57 then Some(c - 48)
    else if 97 <= c <= 102 then Some(c - 87)
    else if 65 <= c <= 70 then Some(c - 55)
    else None
  }

  /** `hex.DecodeString` */
  function HexDecode(s: bytes): (r: Option<bytes>)
    ensures r == Some([]) <==> s == []
  {
    if s == [] then Some([])
    else if |s| == 1 then None
    else
      var high, low, rest := HexDigit(s[0]), HexDigit(s[1]), HexDecode(s[2..]);
      if high.None? || low.None? || rest.None? || high.value >= 16 || low.value >= 16 then None
      else Some([16 * high.value + low.value] + rest.value)
  }

  /** `NewFiller` returns no filler for `none`, and an error for a string that it cannot use. */
  datatype FillerKind = NoFiller | RandomFill | PatternFill(pattern: bytes) | Unusable

  function FillerOf(s: bytes): FillerKind {
    if s == NONE then NoFiller
    else if s == RAND then RandomFill
    else if FirstPart(s) != PATTERN then Unusable
    else
      match AfterColon(s)
      case None => PatternFill(DEFAULT_PATTERN)
      case Some(rest) =>
        match HexDecode(FirstPart(rest))
        case None => Unusable
        case Some(b) => PatternFill(b)
  }

  /** The filler, which cannot be built of an empty pattern: that would divide by zero. */
  method NewFiller(s: bytes) returns (kind: FillerKind, filler: PatternFiller?)
    requires FillerOf(s) != PatternFill([])
    ensures kind == FillerOf(s)
    ensures if kind.PatternFill?
            then filler != null && fresh(filler) && filler.Valid() && filler.pattern == kind.pattern
            else filler == null
  {
    kind, filler := FillerOf(s), null;
    if kind.PatternFill? {
      filler := new PatternFiller(kind.pattern);
    }
  }

  // Patterns

  const LOWER_DIGITS: bytes := [48, 49, 50, 51, 52, 53, 54, 55, 56, 57, 97, 98, 99, 100, 101, 102]
  const UPPER_DIGITS: bytes := [48, 49, 50, 51, 52, 53, 54, 55, 56, 57, 65, 66, 67, 68, 69, 70]

  predicate IsDigit(c: byte, v: int) { 0 <= v < 16 && (c == LOWER_DIGITS[v] || c == UPPER_DIGITS[v]) }

  lemma HexDigitExactly(c: byte, v: byte)
    ensures HexDigit(c) == Some(v) <==> IsDigit(c, v)
  {
  }

  /** Two digits for each byte, the high one first. */
  predicate IsHex(s: bytes, b: bytes) {
    |s| == 2 * |b| && forall i :: 0 <= i < |b| ==> IsDigit(s[2 * i], b[i] / 16) && IsDigit(s[2 * i + 1], b[i] % 16)
  }

  lemma {:induction false} HexDecodeExactly(s: bytes, b: bytes)
    ensures HexDecode(s) == Some(b) <==> IsHex(s, b)
    decreases |s|
  {
    hide IsHex, HexDigit, IsDigit;
    if |s| >= 2 && b != [] {
      HexDigitExactly(s[0], b[0] / 16);
      HexDigitExactly(s[1], b[0] % 16);
      HexDecodeExactly(s[2..], b[1..]);
      HexRest(s, b);
      assert b == [b[0]] + b[1..];
    } else {
      NoHex(s, b);
    }
  }

  lemma NoHex(s: bytes, b: bytes)
    ensures IsHex(s, b) ==> |s| == 2 * |b|
    ensures IsHex([], [])
  {
  }

  lemma HexRest(s: bytes, b: bytes)
    requires |s| >= 2 && b != []
    ensures IsHex(s, b) <==> IsDigit(s[0], b[0] / 16) && IsDigit(s[1], b[0] % 16) && IsHex(s[2..], b[1..])
  {
    hide IsDigit;
    var t, c := s[2..], b[1..];
    assert forall i :: 0 <= i < |b| - 1 && |s| == 2 * |b| ==>
      b[i + 1] == c[i] && s[2 * (i + 1)] == t[2 * i] && s[2 * (i + 1) + 1] == t[2 * i + 1];
    if IsHex(t, c) && IsDigit(s[0], b[0] / 16) && IsDigit(s[1], b[0] % 16) {
      forall i | 0 <= i < |b| ensures IsDigit(s[2 * i], b[i] / 16) && IsDigit(s[2 * i + 1], b[i] % 16) {
        if i > 0 {
          assert b[i] == c[i - 1] && s[2 * i] == t[2 * (i - 1)];
        }
      }
    }
  }

  /** `PatternFiller.String` */
  function PatternString(digits: bytes): bytes { PATTERN + [COLON] + digits }

  /** A filler's own string asks for it, in digits of either case. */
  lemma PatternFillExactly(digits: bytes, pattern: bytes)
    requires COLON !in digits
    ensures FillerOf(PatternString(digits)) == PatternFill(pattern) <==> IsHex(digits, pattern)
  {
    var s := PatternString(digits);
    SplitOf(PATTERN, digits);
    NoColon(digits);
    HexDecodeExactly(digits, pattern);
    NotPattern(s);
    hide FirstPart, AfterColon, HexDecode, IsHex;
  }

  lemma NotPattern(s: bytes)
    ensures |s| > 7 ==> s != NONE && s != RAND
  {
  }

  lemma {:induction false} NoColon(s: bytes)
    requires COLON !in s
    ensures FirstPart(s) == s
  {
    if s != [] {
      NoColon(s[1..]);
      assert s == [s[0]] + s[1..];
    }
  }

  // Empty patterns

  predicate EmptyPattern(s: bytes) { FillerOf(s) == PatternFill([]) }

  function PatternColon(): bytes { PATTERN + [COLON] }

  function PatternColons(): bytes { PATTERN + [COLON, COLON] }

  lemma {:induction false} SplitOf(p: bytes, rest: bytes)
    requires COLON !in p
    ensures FirstPart(p + [COLON] + rest) == p && AfterColon(p + [COLON] + rest) == Some(rest)
  {
    if p != [] {
      SplitOf(p[1..], rest);
      assert (p + [COLON] + rest)[1..] == p[1..] + [COLON] + rest;
    } else {
      assert ([] + [COLON] + rest)[1..] == rest;
    }
  }

  lemma {:induction false} SplitAtColon(s: bytes)
    ensures AfterColon(s).Some? ==> s == FirstPart(s) + [COLON] + AfterColon(s).value
  {
    if s != [] && s[0] != COLON {
      SplitAtColon(s[1..]);
    }
  }

  /** The strings that ask for an empty pattern are `pattern:`, and those that start with `pattern::`. */
  lemma EmptyPatternExactly(s: bytes)
    ensures EmptyPattern(s) <==> s == PatternColon() || PatternColons() <= s
  {
    SplitAtColon(s);
    if AfterColon(s).Some? {
      var rest := AfterColon(s).value;
      assert FirstPart(rest) == [] <==> rest == [] || rest[0] == COLON;
      if rest != [] && rest[0] == COLON && FirstPart(s) == PATTERN {
        assert s == PatternColons() + rest[1..];
      }
    }
    if s == PatternColon() {
      SplitOf(PATTERN, []);
      assert s == PATTERN + [COLON] + [];
    }
    if PatternColons() <= s {
      var more := s[|PatternColons()|..];
      SplitOf(PATTERN, [COLON] + more);
      assert s == PATTERN + [COLON] + ([COLON] + more);
    }
  }

  // Globs

  function Literals(g: bytes): nat {
    if g == [] then 0 else Literals(g[1..]) + if g[0] == STAR then 0 else 1
  }

  function OnePlus(n: Option<nat>): Option<nat> { if n.None? then None else Some(1 + n.value) }

  function Least(m: Option<nat>, n: Option<nat>): Option<nat> {
    if m.None? then n else if n.None? || m.value <= n.value then m else n
  }

  /** How short the strings can be that start with `s` and match the glob `g`. */
  function Shortest(g: bytes, s: bytes): Option<nat>
    decreases |g| + |s|
  {
    if s == [] then Some(Literals(g))
    else if g == [] then None
    else if g[0] == STAR then Least(Shortest(g[1..], s), OnePlus(Shortest(g, s[1..])))
    else if g[0] == s[0] then OnePlus(Shortest(g[1..], s[1..]))
    else None
  }

  /** A glob's literal bytes are its shortest match. */
  lemma {:induction false} ShortestOfAll(g: bytes) returns (t: bytes)
    ensures |t| == Literals(g) && Matches(g, t)
  {
    if g == [] {
      t := [];
    } else {
      t := ShortestOfAll(g[1..]);
      if g[0] == STAR {
        assert t[0..] == t;
      } else {
        t := [g[0]] + t;
      }
    }
  }

  lemma {:induction false} MatchIsLong(g: bytes, t: bytes)
    requires Matches(g, t)
    ensures |t| >= Literals(g)
    decreases |g|
  {
    if g != [] {
      if g[0] == STAR {
        var k :| 0 <= k <= |t| && Matches(g[1..], t[k..]);
        MatchIsLong(g[1..], t[k..]);
      } else {
        MatchIsLong(g[1..], t[1..]);
      }
    }
  }

  lemma StarTakesNone(g: bytes, x: bytes)
    requires g != [] && g[0] == STAR && Matches(g[1..], x)
    ensures Matches(g, x)
  {
    assert x[0..] == x;
  }

  lemma StarTakesOne(g: bytes, x: bytes)
    requires g != [] && g[0] == STAR && x != [] && Matches(g, x[1..])
    ensures Matches(g, x)
  {
    var k :| 0 <= k <= |x| - 1 && Matches(g[1..], x[1..][k..]);
    assert x[1..][k..] == x[k + 1..];
  }

  /** A star takes no byte, or at least one. */
  lemma StarTakes(g: bytes, x: bytes)
    requires g != [] && g[0] == STAR && Matches(g, x)
    ensures Matches(g[1..], x) || (x != [] && Matches(g, x[1..]))
  {
    var k :| 0 <= k <= |x| && Matches(g[1..], x[k..]);
    if k == 0 {
      assert x[0..] == x;
    } else {
      assert x[1..][k - 1..] == x[k..];
    }
  }

  /** The shortest length is reached. */
  lemma {:induction false} ShortestReached(g: bytes, s: bytes) returns (t: bytes)
    requires Shortest(g, s).Some?
    ensures Matches(g, s + t) && |s + t| == Shortest(g, s).value
    decreases |g| + |s|
  {
    if s == [] {
      t := ShortestOfAll(g);
      assert s + t == t;
    } else if g[0] == STAR {
      if Shortest(g, s) == Shortest(g[1..], s) {
        t := ShortestReached(g[1..], s);
        StarTakesNone(g, s + t);
      } else {
        t := ShortestReached(g, s[1..]);
        assert (s + t)[1..] == s[1..] + t;
        StarTakesOne(g, s + t);
      }
    } else {
      t := ShortestReached(g[1..], s[1..]);
      assert (s + t)[1..] == s[1..] + t;
    }
  }

  /** And no match is shorter. */
  lemma {:induction false} ShortestIsLeast(g: bytes, s: bytes, t: bytes)
    requires Matches(g, s + t)
    ensures Shortest(g, s).Some? && Shortest(g, s).value <= |s + t|
    decreases |g| + |s|
  {
    if s == [] {
      assert s + t == t;
      MatchIsLong(g, t);
    } else {
      assert (s + t)[1..] == s[1..] + t;
      if g[0] == STAR {
        StarTakes(g, s + t);
        if Matches(g[1..], s + t) {
          ShortestIsLeast(g[1..], s, t);
        } else {
          ShortestIsLeast(g, s[1..], t);
        }
      } else {
        ShortestIsLeast(g[1..], s[1..], t);
      }
    }
  }

  /** Whether a glob matches no string of at most `n` bytes that asks for an empty pattern. */
  ghost predicate SafeGlob(g: bytes, n: nat) {
    && !Matches(g, PatternColon())
    && (Shortest(g, PatternColons()).Some? ==> Shortest(g, PatternColons()).value > n)
  }

  lemma SafeGlobExactly(g: bytes, n: nat)
    requires n >= |PatternColon()|
    ensures SafeGlob(g, n) <==> forall s :: |s| <= n && EmptyPattern(s) ==> !Matches(g, s)
  {
    var colon, colons := PatternColon(), PatternColons();
    EmptyPatternExactly(colon);
    hide Matches, Shortest, EmptyPattern;
    if SafeGlob(g, n) {
      forall s | |s| <= n && EmptyPattern(s) ensures !Matches(g, s) {
        EmptyPatternExactly(s);
        if s != colon && Matches(g, s) {
          var t := s[|colons|..];
          assert s == colons + t;
          ShortestIsLeast(g, colons, t);
        }
      }
    } else if !Matches(g, colon) {
      var t := ShortestReached(g, colons);
      EmptyPatternExactly(colons + t);
    }
  }
}
