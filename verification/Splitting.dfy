/** Cutting a string at a separator, without the option to skip repeated separators. */
module Splitting {
  import opened Options

  predicate Occurs(s: string, sep: string, i: nat) {
    i + |sep| <= |s| && s[i..i + |sep|] == sep
  }

  /** std::string::find: the first occurrence. */
  function Find(s: string, sep: string, from: nat): (r: Option<nat>)
    requires from <= |s|
    ensures r.Some? ==>
              && from <= r.value <= |s| && Occurs(s, sep, r.value)
              && forall i :: from <= i < r.value ==> !Occurs(s, sep, i)
    ensures r.None? ==> forall i :: from <= i ==> !Occurs(s, sep, i)
    decreases |s| - from
  {
    if Occurs(s, sep, from) then Some(from)
    else if from == |s| then None
    else Find(s, sep, from + 1)
  }

  /** The tokens with the separator in between. */
  function Joined(tokens: seq<string>, sep: string): string {
    if tokens == [] then ""
    else if |tokens| == 1 then tokens[0]
    else tokens[0] + sep + Joined(tokens[1..], sep)
  }

  /** With the separator behind it, the token has no earlier one. */
  ghost predicate NoEarlierCut(token: string, sep: string) {
    forall i: nat :: i < |token| ==> !Occurs(token + sep, sep, i)
  }

  /** The separator between two tokens is the first one behind the start of the left token, and the
      last token has none. */
  ghost predicate CutAtFirst(tokens: seq<string>, sep: string) {
    && tokens != []
    && Find(tokens[|tokens| - 1], sep, 0) == None
    && forall k :: 0 <= k < |tokens| - 1 ==> NoEarlierCut(tokens[k], sep)
  }

  lemma OccursEarly(a: string, b: string, sep: string, i: nat)
    requires i + |sep| <= |a|
    ensures Occurs(a + b, sep, i) == Occurs(a, sep, i)
  {
    assert (a + b)[i..i + |sep|] == a[i..i + |sep|];
  }

  lemma JoinedOne(token: string, sep: string)
    ensures Joined([token], sep) == token && [] + [token] == [token]
  {
  }

  lemma {:induction false} JoinedAppend(tokens: seq<string>, last: string, sep: string)
    requires tokens != []
    ensures Joined(tokens + [last], sep) == Joined(tokens, sep) + sep + last
    decreases |tokens|
  {
    var all := tokens + [last];
    assert all[1..] == tokens[1..] + [last];
    if |tokens| > 1 {
      JoinedAppend(tokens[1..], last, sep);
      var t, j := tokens[0], Joined(tokens[1..], sep);
      assert t + sep + (j + sep + last) == (t + sep + j) + sep + last;
    } else {
      assert Joined(all[1..], sep) == last;
    }
  }

  /** There is only one way to cut a string so. */
  lemma {:induction false} CutIsUnique(a: seq<string>, b: seq<string>, sep: string)
    requires sep != "" && CutAtFirst(a, sep) && CutAtFirst(b, sep) && Joined(a, sep) == Joined(b, sep)
    ensures a == b
    decreases |a|
  {
    hide Find, Occurs, NoEarlierCut;
    FirstCut(a, sep);
    FirstCut(b, sep);
    if |a| > 1 {
      var s, n := Joined(a, sep), |a[0]| + |sep|;
      assert s[n..] == Joined(a[1..], sep) && s[n..] == Joined(b[1..], sep);
      assert a[0] == s[..|a[0]|] == b[0];
      TailCut(a, sep);
      TailCut(b, sep);
      CutIsUnique(a[1..], b[1..], sep);
      assert a == [a[0]] + a[1..] && b == [b[0]] + b[1..];
    }
  }

  lemma TailCut(tokens: seq<string>, sep: string)
    requires CutAtFirst(tokens, sep) && |tokens| > 1
    ensures CutAtFirst(tokens[1..], sep)
  {
  }

  /** The first separator of the whole is the one behind the first token. */
  lemma FirstCut(tokens: seq<string>, sep: string)
    requires sep != "" && CutAtFirst(tokens, sep)
    ensures Find(Joined(tokens, sep), sep, 0) == if |tokens| == 1 then None else Some(|tokens[0]|)
  {
    if |tokens| > 1 {
      var t, rest := tokens[0], Joined(tokens[1..], sep);
      var s := t + sep + rest;
      assert s[|t|..|t| + |sep|] == sep;
      assert NoEarlierCut(t, sep) && s == Joined(tokens, sep) && Occurs(s, sep, |t|);
      forall i: nat | i < |t| ensures !Occurs(s, sep, i) {
        OccursEarly(t + sep, rest, sep, i);
      }
    }
  }

  lemma FirstToken(s: string, sep: string, p: nat)
    requires p <= |s| && Find(s, sep, 0) == Some(p)
    ensures p + |sep| <= |s| && s == s[..p] + sep + s[p + |sep|..] && NoEarlierCut(s[..p], sep)
  {
    hide Occurs, NoEarlierCut;
    CutOut(s, sep, p);
    NoCutBefore(s, sep, p);
  }

  lemma CutOut(s: string, sep: string, p: nat)
    requires Occurs(s, sep, p)
    ensures p + |sep| <= |s| && s == s[..p] + sep + s[p + |sep|..]
  {
    assert s == s[..p] + s[p..p + |sep|] + s[p + |sep|..];
  }

  lemma NoCutBefore(s: string, sep: string, p: nat)
    requires Occurs(s, sep, p) && forall i: nat :: i < p ==> !Occurs(s, sep, i)
    ensures p <= |s| && NoEarlierCut(s[..p], sep)
  {
    CutOut(s, sep, p);
    var first, rest := s[..p] + sep, s[p + |sep|..];
    forall i: nat | i < p ensures !Occurs(first, sep, i) {
      OccursEarly(first, rest, sep, i);
    }
  }

  /** split.  Joining gives the source back, and the cuts are the first possible ones. */
  method Split(source: string, sep: string) returns (tokens: seq<string>)
    ensures sep == "" ==> tokens == [source]
    ensures sep != "" && source == "" ==> tokens == []
    ensures sep != "" && source != "" ==> Joined(tokens, sep) == source && CutAtFirst(tokens, sep)
  {
    hide Find, Occurs, NoEarlierCut, Joined;
    tokens := [];
    if sep == "" {
      return [source];
    }
    if source == "" {
      return;
    }
    var str := source;
    var pos := Find(str, sep, 0);
    while true
      invariant pos == Find(str, sep, 0)
      invariant source == if tokens == [] then str else Joined(tokens, sep) + sep + str
      invariant forall k :: 0 <= k < |tokens| ==> NoEarlierCut(tokens[k], sep)
      decreases |str|
    {
      var token := if pos.None? then str else str[..pos.value];
      ghost var before := tokens;
      tokens := tokens + [token];
      if before != [] {
        JoinedAppend(before, token, sep);
      } else {
        JoinedOne(token, sep);
      }
      if pos.None? {
        break;
      }
      FirstToken(str, sep, pos.value);
      str := str[pos.value + |sep|..];
      pos := Find(str, sep, 0);
    }
  }
}
