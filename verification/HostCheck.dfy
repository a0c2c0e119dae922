/** Matching the host name of a certificate, with at most one wildcard that counts: section 6.4.3 of
    RFC 6125. */
module HostCheck {
  import opened Options

  /** A C string without its terminator. */
  type cstring = s: string | '\0' !in s

  datatype HostCheckResult = Match | NoMatch

  /** The character a pointer into the string sees; the terminator at the end. */
  function At(s: cstring, i: nat): char
    requires i <= |s|
  {
    if i < |s| then s[i] else '\0'
  }

  /** The string a pointer into `s` points at. */
  function From(s: cstring, i: nat): (t: cstring)
    requires i <= |s|
    ensures t == s[i..]
  {
    s[i..]
  }

  function RawToUpper(c: char): char {
    if 'a' <= c <= 'z' then c - 'a' + 'A' else c
  }

  /** A letter of the ASCII alphabet, and the same letter as a capital. */
  ghost predicate CasePair(small: char, capital: char) {
    97 <= small as int <= 122 && capital as int == small as int - 32
  }

  ghost predicate SameLetter(c: char, d: char) {
    c == d || CasePair(c, d) || CasePair(d, c)
  }

  /** Equal but for the case of ASCII letters. */
  ghost predicate EqualFold(a: string, b: string) {
    |a| == |b| && forall i :: 0 <= i < |a| ==> SameLetter(a[i], b[i])
  }

  /** Comparing capitals is comparing letters. */
  lemma ToUpperIff(c: char, d: char)
    ensures RawToUpper(c) == RawToUpper(d) <==> SameLetter(c, d)
  {
    assert RawToUpper(c) == c || CasePair(c, RawToUpper(c));
    assert RawToUpper(d) == d || CasePair(d, RawToUpper(d));
  }

  function Take(s: string, n: nat): string {
    if n < |s| then s[..n] else s
  }

  /** amqp_raw_equal. */
  method RawEqual(first: cstring, second: cstring) returns (equal: bool)
    ensures equal == EqualFold(first, second)
  {
    var i := 0;
    while At(first, i) != '\0' && At(second, i) != '\0'
      invariant i <= |first| && i <= |second|
      invariant forall k :: 0 <= k < i ==> SameLetter(first[k], second[k])
      decreases |first| - i
    {
      ToUpperIff(At(first, i), At(second, i));
      if RawToUpper(At(first, i)) != RawToUpper(At(second, i)) {
        break;
      }
      i := i + 1;
    }
    ToUpperIff(At(first, i), At(second, i));
    equal := RawToUpper(At(first, i)) == RawToUpper(At(second, i));
  }

  /** amqp_raw_nequal. */
  method RawNEqual(first: cstring, second: cstring, max: nat) returns (equal: bool)
    ensures equal == EqualFold(Take(first, max), Take(second, max))
  {
    var i, left := 0, max;
    while At(first, i) != '\0' && At(second, i) != '\0' && left != 0
      invariant i <= |first| && i <= |second| && i + left == max
      invariant forall k :: 0 <= k < i ==> SameLetter(first[k], second[k])
      decreases left
    {
      ToUpperIff(At(first, i), At(second, i));
      if RawToUpper(At(first, i)) != RawToUpper(At(second, i)) {
        break;
      }
      left := left - 1;
      i := i + 1;
    }
    if 0 == left {
      return true;
    }
    ToUpperIff(At(first, i), At(second, i));
    equal := RawToUpper(At(first, i)) == RawToUpper(At(second, i));
  }

  /** strchr from position `from`, with the length of the string for a null result. */
  function Find(s: string, c: char, from: nat): (i: nat)
    requires from <= |s|
    ensures from <= i <= |s| && (i < |s| ==> s[i] == c) && forall k :: from <= k < i ==> s[k] != c
    decreases |s| - from
  {
    if from == |s| || s[from] == c then from else Find(s, c, from + 1)
  }

  lemma FindIs(s: string, c: char, from: nat, i: nat)
    requires from <= i < |s| && s[i] == c && forall k :: from <= k < i ==> s[k] != c
    ensures Find(s, c, from) == i
  {
  }

  // ---------- what a wildcard matches ----------

  /** The parts of a pattern with a wildcard in its left-most label. */
  datatype Pattern = Pattern(prefix: string, suffix: string, rest: string)

  /** The left-most label of a host name in three pieces, and what follows it. */
  datatype Host = Host(before: string, middle: string, after: string, rest: string)

  /** The first '*' of the pattern lies in its left-most label, at least two dots follow, and the
      pattern does not start like an internationalised label. */
  ghost predicate IsWildcard(s: string, p: Pattern) {
    && s == p.prefix + "*" + p.suffix + p.rest
    && '*' !in p.prefix && '.' !in p.prefix && '.' !in p.suffix
    && p.rest != "" && p.rest[0] == '.' && '.' in p.rest[1..]
    && !EqualFold(Take(s, 4), "xn--")
  }

  ghost predicate IsHost(s: string, h: Host) {
    && s == h.before + h.middle + h.after + h.rest
    && '.' !in h.before && '.' !in h.middle && '.' !in h.after
    && h.rest != "" && h.rest[0] == '.'
  }

  /** The label starts with the prefix, ends with the suffix, and has something in between. */
  ghost predicate Fits(p: Pattern, h: Host) {
    EqualFold(p.prefix, h.before) && h.middle != "" && EqualFold(p.suffix, h.after) && EqualFold(p.rest, h.rest)
  }

  ghost predicate WildcardMatch(pattern: string, hostname: string) {
    exists p, h :: IsWildcard(pattern, p) && IsHost(hostname, h) && Fits(p, h)
  }

  // ---------- what the code computes ----------

  predicate WildcardEnabled(s: string) {
    var star, dot := Find(s, '*', 0), Find(s, '.', 0);
    star < dot < |s| && Find(s, '.', dot + 1) < |s|
  }

  ghost predicate Matches(pattern: string, hostname: string)
    requires WildcardEnabled(pattern)
  {
    var star, dot, end := Find(pattern, '*', 0), Find(pattern, '.', 0), Find(hostname, '.', 0);
    var suffix := dot - (star + 1);
    && end < |hostname| && EqualFold(pattern[dot..], hostname[end..]) && dot <= end
    && EqualFold(Take(pattern, star), Take(hostname, star))
    && EqualFold(Take(pattern[star + 1..], suffix), Take(hostname[end - suffix..], suffix))
  }

  /** amqp_hostmatch. */
  method HostMatch(hostname: cstring, pattern: cstring) returns (r: HostCheckResult)
    ensures r.Match? <==> if WildcardEnabled(pattern) && !EqualFold(Take(pattern, 4), "xn--")
                          then Matches(pattern, hostname) else EqualFold(pattern, hostname)
  {
    hide EqualFold;
    var star := Find(pattern, '*', 0);
    if star == |pattern| {
      var equal := RawEqual(pattern, hostname);
      return if equal then Match else NoMatch;
    }
    var dot := Find(pattern, '.', 0);
    var enabled := true;
    if dot == |pattern| || Find(pattern, '.', dot + 1) == |pattern| || star > dot {
      enabled := false;
    } else {
      var coded := RawNEqual(pattern, "xn--", 4);
      enabled := !coded;
    }
    if !enabled {
      var equal := RawEqual(pattern, hostname);
      return if equal then Match else NoMatch;
    }
    var end := Find(hostname, '.', 0);
    if end == |hostname| {
      return NoMatch;
    }
    var rest := RawEqual(From(pattern, dot), From(hostname, end));
    if !rest {
      return NoMatch;
    }
    if end < dot {
      return NoMatch;
    }
    var prefixlen, suffixlen := star, dot - (star + 1);
    var equal := RawNEqual(pattern, hostname, prefixlen);
    if equal {
      equal := RawNEqual(From(pattern, star + 1), From(hostname, end - suffixlen), suffixlen);
    }
    return if equal then Match else NoMatch;
  }

  lemma Cut(s: string, i: nat, j: nat, k: nat)
    requires i <= j <= k <= |s|
    ensures s == s[..i] + s[i..j] + s[j..k] + s[k..]
  {
  }

  lemma PatternHasParts(s: string) returns (p: Pattern)
    requires WildcardEnabled(s) && !EqualFold(Take(s, 4), "xn--")
    ensures IsWildcard(s, p)
    ensures var star, dot := Find(s, '*', 0), Find(s, '.', 0);
            p == Pattern(s[..star], s[star + 1..dot], s[dot..])
  {
    hide EqualFold, Find, Take;
    var star, dot := Find(s, '*', 0), Find(s, '.', 0);
    p := Pattern(s[..star], s[star + 1..dot], s[dot..]);
    Cut(s, star, star + 1, dot);
    assert s[star..star + 1] == "*";
    assert p.rest[1..][Find(s, '.', dot + 1) - dot - 1] == '.';
  }

  lemma HostHasParts(s: string, i: nat, j: nat) returns (h: Host)
    requires i <= j <= Find(s, '.', 0) < |s|
    ensures IsHost(s, h)
    ensures var end := Find(s, '.', 0); h == Host(s[..i], s[i..j], s[j..end], s[end..])
  {
    var end := Find(s, '.', 0);
    h := Host(s[..i], s[i..j], s[j..end], s[end..]);
    Cut(s, i, j, end);
  }

  lemma TakeFrom(s: string, i: nat, n: nat)
    requires i + n <= |s|
    ensures Take(s[i..], n) == s[i..i + n] && Take(s, n) == s[..n]
  {
  }

  lemma MatchHasParts(pattern: string, hostname: string)
    requires WildcardEnabled(pattern) && !EqualFold(Take(pattern, 4), "xn--") && Matches(pattern, hostname)
    ensures WildcardMatch(pattern, hostname)
  {
    hide EqualFold, IsWildcard, IsHost, Take, Find;
    var star, dot, end := Find(pattern, '*', 0), Find(pattern, '.', 0), Find(hostname, '.', 0);
    var suffix := dot - (star + 1);
    var p := PatternHasParts(pattern);
    var h := HostHasParts(hostname, star, end - suffix);
    TakeFrom(pattern, star + 1, suffix);
    TakeFrom(hostname, end - suffix, suffix);
    TakeFrom(pattern, 0, star);
    TakeFrom(hostname, 0, star);
    assert Fits(p, h);
  }

  lemma FindJoin(before: string, rest: string, c: char)
    requires c !in before && rest != "" && rest[0] == c
    ensures Find(before + rest, c, 0) == |before|
  {
    FindIs(before + rest, c, 0, |before|);
  }

  lemma Pieces(a: string, b: string, c: string, d: string)
    ensures var s := a + b + c + d;
            Take(s, |a|) == a && Take(s[|a| + |b|..], |c|) == c && s[|a| + |b| + |c|..] == d
  {
    var s := a + b + c + d;
    assert s[|a| + |b|..] == c + d;
    assert s == a + (b + c + d);
  }

  lemma DotAfter(s: string, dot: nat)
    requires dot < |s| && '.' in s[dot + 1..]
    ensures Find(s, '.', dot + 1) < |s|
  {
    var k :| 0 <= k < |s[dot + 1..]| && s[dot + 1..][k] == '.';
    assert s[dot + 1 + k] == '.';
  }

  lemma StarLocated(s: string, p: Pattern)
    requires IsWildcard(s, p)
    ensures Find(s, '*', 0) == |p.prefix|
  {
    hide EqualFold, Find, Take;
    var tail := "*" + p.suffix + p.rest;
    assert s == p.prefix + tail;
    FindJoin(p.prefix, tail, '*');
  }

  lemma DotsLocated(s: string, p: Pattern)
    requires IsWildcard(s, p)
    ensures var dot := |p.prefix| + 1 + |p.suffix|; Find(s, '.', 0) == dot < |s| && Find(s, '.', dot + 1) < |s|
  {
    hide EqualFold, Find, Take;
    var first := p.prefix + "*" + p.suffix;
    FindJoin(first, p.rest, '.');
    assert s[|first| + 1..] == p.rest[1..];
    DotAfter(s, |first|);
  }

  lemma PartsLocated(s: string, p: Pattern)
    requires IsWildcard(s, p)
    ensures WildcardEnabled(s) && Find(s, '*', 0) == |p.prefix|
    ensures Find(s, '.', 0) == |p.prefix| + 1 + |p.suffix|
    ensures Take(s, |p.prefix|) == p.prefix && Take(s[|p.prefix| + 1..], |p.suffix|) == p.suffix
    ensures s[|p.prefix| + 1 + |p.suffix|..] == p.rest
  {
    hide EqualFold, Find, Take;
    StarLocated(s, p);
    DotsLocated(s, p);
    Pieces(p.prefix, "*", p.suffix, p.rest);
  }

  lemma HostLocated(s: string, h: Host)
    requires IsHost(s, h)
    ensures Find(s, '.', 0) == |h.before| + |h.middle| + |h.after| < |s|
    ensures Take(s, |h.before|) == h.before && Take(s[|h.before| + |h.middle|..], |h.after|) == h.after
    ensures s[|h.before| + |h.middle| + |h.after|..] == h.rest
  {
    hide Find, Take;
    FindJoin(h.before + h.middle + h.after, h.rest, '.');
    Pieces(h.before, h.middle, h.after, h.rest);
  }

  lemma FitsLengths(p: Pattern, h: Host)
    requires Fits(p, h)
    ensures |p.prefix| == |h.before| && |p.suffix| == |h.after| && |h.middle| > 0
  {
  }

  lemma PartsMatch(pattern: string, hostname: string, p: Pattern, h: Host)
    requires IsWildcard(pattern, p) && IsHost(hostname, h) && Fits(p, h)
    ensures WildcardEnabled(pattern) && Matches(pattern, hostname)
  {
    hide IsWildcard, IsHost, Take, Find, EqualFold;
    PartsLocated(pattern, p);
    HostLocated(hostname, h);
    FitsLengths(p, h);
    var dot, end := Find(pattern, '.', 0), Find(hostname, '.', 0);
    assert end - |p.suffix| == |h.before| + |h.middle| && dot <= end;
  }

  /** amqp_hostcheck: exactly the equal names, and those that a wildcard in the left-most label
      covers. */
  method Check(pattern: Option<cstring>, hostname: Option<cstring>) returns (r: HostCheckResult)
    ensures r.Match? <==>
              && pattern.Some? && pattern.value != "" && hostname.Some? && hostname.value != ""
              && (EqualFold(pattern.value, hostname.value) || WildcardMatch(pattern.value, hostname.value))
  {
    if pattern.None? || pattern.value == "" || hostname.None? || hostname.value == "" {
      return NoMatch;
    }
    var equal := RawEqual(hostname.value, pattern.value);
    if equal {
      return Match;
    }
    r := HostMatch(hostname.value, pattern.value);
    MatchIff(pattern.value, hostname.value);
  }

  lemma MatchIff(pattern: string, hostname: string)
    ensures WildcardEnabled(pattern) && !EqualFold(Take(pattern, 4), "xn--") && Matches(pattern, hostname)
            <==> WildcardMatch(pattern, hostname)
  {
    hide Matches, IsHost, Fits;
    if WildcardMatch(pattern, hostname) {
      var p, h :| IsWildcard(pattern, p) && IsHost(hostname, h) && Fits(p, h);
      PartsMatch(pattern, hostname, p, h);
    } else if WildcardEnabled(pattern) && !EqualFold(Take(pattern, 4), "xn--") && Matches(pattern, hostname) {
      MatchHasParts(pattern, hostname);
    }
  }

  /** A wildcard stands for part of one label: a match never spans a dot, so both names have the same
      labels behind the first. */
  lemma WildcardStaysInLabel(pattern: string, hostname: string)
    requires WildcardMatch(pattern, hostname)
    ensures var dot, end := Find(pattern, '.', 0), Find(hostname, '.', 0);
            dot <= end && EqualFold(pattern[dot..], hostname[end..])
  {
    MatchIff(pattern, hostname);
  }
}
