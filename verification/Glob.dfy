/** Glob patterns, in which `*` stands for any bytes. */
module Glob {
  import opened Numbers

  const STAR: byte := '*' as int

  /** The meaning of a pattern. */
  ghost predicate Matches(pattern: bytes, subj: bytes)
    decreases |pattern|
  {
    if pattern == [] then subj == []
    else if pattern[0] == STAR then exists k :: 0 <= k <= |subj| && Matches(pattern[1..], subj[k..])
    else subj != [] && subj[0] == pattern[0] && Matches(pattern[1..], subj[1..])
  }

  predicate IsLiteral(s: bytes) { STAR !in s }

  /** The pattern whose parts these are. */
  function Join(parts: seq<bytes>): bytes
    requires parts != []
  {
    if |parts| == 1 then parts[0] else parts[0] + ([STAR] + Join(parts[1..]))
  }

  /** `strings.Split(pattern, "*")`. */
  function Split(pattern: bytes): (parts: seq<bytes>)
    ensures parts != [] && Join(parts) == pattern
    ensures forall part :: part in parts ==> IsLiteral(part)
  {
    if pattern == [] then [[]]
    else
      var rest := Split(pattern[1..]);
      if pattern[0] == STAR then
        assert pattern == [] + ([STAR] + Join(rest));
        [[]] + rest
      else
        var head := [pattern[0]] + rest[0];
        assert IsLiteral(rest[0]) && IsLiteral(head);
        JoinOfLonger([pattern[0]], rest[0], rest[1..]);
        assert rest == [rest[0]] + rest[1..];
        [head] + rest[1..]
  }

  lemma JoinOfLonger(prefix: bytes, part: bytes, rest: seq<bytes>)
    ensures Join([prefix + part] + rest) == prefix + Join([part] + rest)
  {
    if rest != [] {
      assert ([prefix + part] + rest)[1..] == rest == ([part] + rest)[1..];
      assert (prefix + part) + ([STAR] + Join(rest)) == prefix + (part + ([STAR] + Join(rest)));
    }
  }

  predicate StartsAt(s: bytes, part: bytes, k: int) {
    0 <= k && k + |part| <= |s| && s[k..k + |part|] == part
  }

  lemma StartsAtTail(s: bytes, part: bytes, k: int)
    requires s != [] && k >= 1
    ensures StartsAt(s, part, k) == StartsAt(s[1..], part, k - 1)
  {
    if k + |part| <= |s| {
      var here, there := s[k..k + |part|], s[1..][k - 1..k - 1 + |part|];
      assert forall m :: 0 <= m < |part| ==> here[m] == there[m];
      assert here == there;
    }
  }

  /** `strings.Index(s, part)`: the leftmost position, or -1. */
  function Index(s: bytes, part: bytes): (idx: int)
    ensures idx >= 0 ==> StartsAt(s, part, idx)
    ensures idx >= -1 && forall k :: 0 <= k && (idx < 0 || k < idx) ==> !StartsAt(s, part, k)
  {
    if |part| > |s| then -1
    else if s[..|part|] == part then 0
    else if s == [] then -1
    else
      var idx := Index(s[1..], part);
      assert forall k :: 1 <= k ==> StartsAt(s, part, k) == StartsAt(s[1..], part, k - 1) by {
        forall k | 1 <= k ensures StartsAt(s, part, k) == StartsAt(s[1..], part, k - 1) {
          StartsAtTail(s, part, k);
        }
      }
      if idx < 0 then -1 else idx + 1
  }

  predicate HasSuffix(s: bytes, part: bytes) { StartsAt(s, part, |s| - |part|) }

  lemma {:induction false} LiteralThen(part: bytes, rest: bytes, subj: bytes)
    requires IsLiteral(part)
    ensures Matches(part + rest, subj) <==> StartsAt(subj, part, 0) && Matches(rest, subj[|part|..])
  {
    if part == [] {
      assert part + rest == rest;
      assert subj[0..] == subj;
    } else {
      assert (part + rest)[1..] == part[1..] + rest;
      if subj != [] {
        LiteralThen(part[1..], rest, subj[1..]);
        assert |part| <= |subj| ==> subj[..|part|] == [subj[0]] + subj[1..][..|part| - 1];
        assert |part| <= |subj| ==> subj[1..][|part| - 1..] == subj[|part|..];
        assert part == [part[0]] + part[1..];
      }
    }
  }

  lemma LiteralOnly(part: bytes, subj: bytes)
    requires IsLiteral(part)
    ensures Matches(part, subj) <==> subj == part
  {
    assert part + [] == part;
    LiteralThen(part, [], subj);
  }

  predicate StartsWithStar(tail: bytes) { tail != [] && tail[0] == STAR }

  /** What starts with a `*` and matches the end of `subj` matches all of it. */
  lemma StarAbsorbs(tail: bytes, subj: bytes, k: nat)
    requires StartsWithStar(tail) && k <= |subj| && Matches(tail, subj[k..])
    ensures Matches(tail, subj)
  {
    var m :| 0 <= m <= |subj| - k && Matches(tail[1..], subj[k..][m..]);
    assert subj[k..][m..] == subj[k + m..];
  }

  /** The part occurs at `k`, and the tail matches what follows it. */
  ghost predicate PartAt(part: bytes, tail: bytes, subj: bytes, k: int) {
    StartsAt(subj, part, k) && Matches(tail, subj[k + |part|..])
  }

  lemma PartFirst(part: bytes, tail: bytes, subj: bytes, k: nat)
    requires IsLiteral(part) && k <= |subj|
    ensures Matches(part + tail, subj[k..]) <==> PartAt(part, tail, subj, k)
  {
    LiteralThen(part, tail, subj[k..]);
    if k + |part| <= |subj| {
      assert subj[k..][..|part|] == subj[k..k + |part|];
      assert subj[k..][|part|..] == subj[k + |part|..];
    }
  }

  lemma StarThenPart(part: bytes, tail: bytes, subj: bytes)
    requires IsLiteral(part)
    ensures Matches([STAR] + (part + tail), subj) <==> exists k :: PartAt(part, tail, subj, k)
  {
    var pattern := [STAR] + (part + tail);
    assert pattern[1..] == part + tail;
    if Matches(pattern, subj) {
      var k :| 0 <= k <= |subj| && Matches(pattern[1..], subj[k..]);
      PartFirst(part, tail, subj, k);
    }
    if k :| PartAt(part, tail, subj, k) {
      PartFirst(part, tail, subj, k);
      assert Matches(pattern[1..], subj[k..]);
    }
  }

  /** The exchange argument: before a star, an earlier occurrence of a part is as good as any. */
  lemma EarlierIsBetter(part: bytes, tail: bytes, subj: bytes, idx: int, k: int)
    requires StartsWithStar(tail) && idx <= k && StartsAt(subj, part, idx) && PartAt(part, tail, subj, k)
    ensures PartAt(part, tail, subj, idx)
  {
    assert subj[idx + |part|..][k - idx..] == subj[k + |part|..];
    StarAbsorbs(tail, subj[idx + |part|..], k - idx);
  }

  /** Between two stars, the leftmost occurrence of a part decides. */
  lemma LeftmostIsBest(part: bytes, tail: bytes, subj: bytes)
    requires IsLiteral(part) && StartsWithStar(tail)
    ensures Matches([STAR] + (part + tail), subj) <==> PartAt(part, tail, subj, Index(subj, part))
  {
    StarThenPart(part, tail, subj);
    if k :| PartAt(part, tail, subj, k) {
      EarlierIsBetter(part, tail, subj, Index(subj, part), k);
    }
  }

  lemma SuffixDecides(part: bytes, subj: bytes)
    requires IsLiteral(part)
    ensures Matches([STAR] + part, subj) <==> HasSuffix(subj, part)
  {
    assert ([STAR] + part)[1..] == part;
    forall k | 0 <= k <= |subj| ensures Matches(part, subj[k..]) <==> subj[k..] == part {
      LiteralOnly(part, subj[k..]);
    }
    if HasSuffix(subj, part) {
      assert subj[|subj| - |part|..] == part;
    }
  }

  /** Whether `subj` matches the pattern of `parts`, which a star precedes unless they are the first. */
  ghost predicate MatchesParts(first: bool, parts: seq<bytes>, subj: bytes)
    requires parts != []
  {
    if first then Matches(Join(parts), subj) else Matches([STAR] + Join(parts), subj)
  }

  /** A pattern that ends with a star has an empty last part. */
  lemma {:induction false} TrailingStar(parts: seq<bytes>)
    requires |parts| > 1 && forall part :: part in parts ==> IsLiteral(part)
    ensures Join(parts)[|Join(parts)| - 1] == STAR <==> parts[|parts| - 1] == []
  {
    if |parts| == 2 {
      var last := parts[1];
      assert Join(parts) == parts[0] + ([STAR] + last);
      assert last in parts;
      if last != [] {
        assert last[|last| - 1] in last;
      }
    } else {
      TrailingStar(parts[1..]);
    }
  }

  lemma LeadingStar(parts: seq<bytes>)
    requires |parts| > 1 && IsLiteral(parts[0])
    ensures Join(parts)[0] == STAR <==> parts[0] == []
  {
  }

  method GlobMatch(pattern: bytes, subj: bytes) returns (matched: bool)
    ensures matched <==> Matches(pattern, subj)
  {
    if pattern == [] {
      return subj == pattern;
    }
    if pattern == [STAR] {
      assert Matches([STAR][1..], subj[|subj|..]);
      return true;
    }
    var parts := Split(pattern);
    if |parts| == 1 {
      LiteralOnly(pattern, subj);
      return subj == pattern;
    }
    LeadingStar(parts);
    TrailingStar(parts);
    matched := MatchParts(parts, subj, pattern[0] == STAR, pattern[|pattern| - 1] == STAR);
  }

  /** The loop over the parts of a pattern that has a star. */
  method MatchParts(parts: seq<bytes>, subj: bytes, leadingGlob: bool, trailingGlob: bool) returns (matched: bool)
    requires |parts| > 1 && forall part :: part in parts ==> IsLiteral(part)
    requires leadingGlob == (parts[0] == []) && trailingGlob == (parts[|parts| - 1] == [])
    ensures matched <==> Matches(Join(parts), subj)
  {
    var end := |parts| - 1;
    var s := subj;
    for i := 0 to end
      invariant Matches(Join(parts), subj) <==> MatchesParts(i == 0, parts[i..], s)
    {
      var idx := Index(s, parts[i]);
      ghost var tail := [STAR] + Join(parts[i + 1..]);
      assert parts[i..][1..] == parts[i + 1..];
      assert Join(parts[i..]) == parts[i] + tail;
      if i == 0 {
        LiteralThen(parts[i], tail, s);
        if !leadingGlob && idx != 0 {
          return false;
        }
      } else {
        LeftmostIsBest(parts[i], tail, s);
        if idx < 0 {
          return false;
        }
      }
      s := s[idx + |parts[i]|..];
    }
    assert parts[end..] == [parts[end]];
    SuffixDecides(parts[end], s);
    return trailingGlob || HasSuffix(s, parts[end]);
  }

  method GlobAny(patterns: seq<bytes>, subj: bytes) returns (matched: bool)
    ensures matched <==> exists p :: p in patterns && Matches(p, subj)
  {
    for i := 0 to |patterns|
      invariant forall p :: p in patterns[..i] ==> !Matches(p, subj)
    {
      var m := GlobMatch(patterns[i], subj);
      if m {
        return true;
      }
    }
    return false;
  }
}
