/** What a replacement is, in terms of the concatenation of strings alone. */
module ReplStrLaws {
  import opened Wrappers
  import opened ReplStr

  lemma OccursMeans(s: string, from: string, i: nat)
    ensures Occurs(s, from, i) <==> exists pre: string, post: string :: s == pre + from + post && |pre| == i
  {
    if Occurs(s, from, i) {
      assert s == s[..i] + from + s[i + |from|..];
    }
    if pre: string, post: string :| s == pre + from + post && |pre| == i {
      OccursBetween(pre, from, post);
    }
  }

  lemma OccursBetween(pre: string, from: string, post: string)
    ensures Occurs(pre + from + post, from, |pre|)
  {
  }

  /** `from` is no part of `t`. */
  ghost predicate Without(t: string, from: string) {
    forall pre: string, post: string :: t != pre + from + post
  }

  /** The only match in `t + from` is the one at its end. */
  ghost predicate UpToFirst(t: string, from: string) {
    forall pre: string, post: string :: t + from == pre + from + post ==> post == ""
  }

  /** The texts, with `separator` between each and the next. */
  function Join(ts: seq<string>, separator: string): string
    requires ts != []
  {
    if |ts| == 1 then ts[0] else ts[0] + separator + Join(ts[1..], separator)
  }

  /** `s` cut at its leftmost matches, one after the other. */
  ghost predicate Pieces(s: string, from: string, ts: seq<string>) {
    && ts != [] && s == Join(ts, from)
    && (forall n :: 0 <= n < |ts| - 1 ==> UpToFirst(ts[n], from))
    && Without(ts[|ts| - 1], from)
  }

  lemma {:induction false} LeastMatch(s: string, from: string, i: nat, k: nat)
    requires i <= k <= |s| && Occurs(s, from, k)
    ensures StrStr(s, from, i).Some? && StrStr(s, from, i).value <= k
    decreases k - i
  {
    hide Occurs;
    if i < k && !Occurs(s, from, i) {
      LeastMatch(s, from, i + 1, k);
    }
  }

  lemma OccursShift(s: string, from: string, i: nat, k: nat)
    requires i <= k && i <= |s|
    ensures Occurs(s, from, k) == Occurs(s[i..], from, k - i)
  {
    if k + |from| <= |s| {
      assert s[i..][k - i..k - i + |from|] == s[k..k + |from|];
    }
  }

  lemma {:induction false} ReplaceShift(s: string, from: string, to: string, i: nat, k: nat)
    requires i <= k <= |s| && |from| > 0
    ensures ReplaceFrom(s, from, to, k) == ReplaceFrom(s[i..], from, to, k - i)
    decreases |s| - k
  {
    hide ReplaceFrom, StrStr;
    OccursShift(s, from, i, k);
    OneStep(s, from, to, k);
    OneStep(s[i..], from, to, k - i);
    if k < |s| {
      ReplaceShift(s, from, to, i, if Occurs(s, from, k) then k + |from| else k + 1);
    }
  }

  lemma MatchIsPart(s: string, from: string)
    ensures StrStr(s, from, 0).Some? ==> !Without(s, from)
  {
    var p := StrStr(s, from, 0);
    if p.Some? {
      assert s == s[..p.value] + from + s[p.value + |from|..];
    }
  }

  /** Without a match nothing is replaced. */
  lemma NothingToReplace(s: string, from: string, to: string)
    requires from != "" && Without(s, from)
    ensures ReplaceAll(s, from, to) == s
  {
    MatchIsPart(s, from);
    BeforeMatch(s, from, to, 0);
  }

  /** Where `t` ends is the leftmost match of `t + from + rest`. */
  lemma FirstMatch(t: string, from: string, rest: string)
    requires UpToFirst(t, from)
    ensures StrStr(t + from + rest, from, 0) == Some(|t|)
  {
    var s := t + from + rest;
    OccursBetween(t, from, rest);
    LeastMatch(s, from, 0, |t|);
    var p := StrStr(s, from, 0).value;
    EarlierMatch(t, from, rest, p);
  }

  lemma EarlierMatch(t: string, from: string, rest: string, p: nat)
    requires p <= |t| && Occurs(t + from + rest, from, p)
    ensures p < |t| ==> exists pre: string, post: string :: t + from == pre + from + post && post != ""
  {
    var u := t + from;
    assert (u + rest)[p..p + |from|] == u[p..p + |from|];
    assert u == u[..p] + from + u[p + |from|..];
  }

  lemma UntilMatch(s: string, from: string, to: string, p: nat)
    requires from != "" && StrStr(s, from, 0) == Some(p)
    ensures p + |from| <= |s|
    ensures ReplaceAll(s, from, to) == s[..p] + (to + ReplaceFrom(s, from, to, p + |from|))
  {
    hide ReplaceFrom, StrStr, Occurs;
    BeforeMatch(s, from, to, 0);
    assert s[0..p] == s[..p];
  }

  lemma RestOf(s: string, from: string, to: string, k: nat)
    requires from != "" && k <= |s|
    ensures ReplaceFrom(s, from, to, k) == ReplaceAll(s[k..], from, to)
  {
    hide ReplaceFrom;
    ReplaceShift(s, from, to, k, k);
  }

  lemma FromFirst(s: string, from: string, to: string, p: nat)
    requires from != "" && StrStr(s, from, 0) == Some(p)
    ensures p + |from| <= |s|
    ensures ReplaceAll(s, from, to) == s[..p] + (to + ReplaceAll(s[p + |from|..], from, to))
  {
    hide StrStr, ReplaceFrom, ReplaceAll;
    UntilMatch(s, from, to, p);
    RestOf(s, from, to, p + |from|);
  }

  lemma ReplaceFirst(t: string, from: string, to: string, rest: string)
    requires from != "" && UpToFirst(t, from)
    ensures ReplaceAll(t + from + rest, from, to) == t + to + ReplaceAll(rest, from, to)
  {
    hide StrStr, ReplaceAll, UpToFirst;
    FirstMatch(t, from, rest);
    FromFirst(t + from + rest, from, to, |t|);
    PartsOf(t, from, rest);
    Associative(t, to, ReplaceAll(rest, from, to));
  }

  lemma PartsOf(a: string, b: string, c: string)
    ensures (a + b + c)[..|a|] == a && (a + b + c)[|a| + |b|..] == c
  {
  }

  lemma Associative(a: string, b: string, c: string)
    ensures a + (b + c) == a + b + c
  {
  }

  /** The pieces, with `to` in the place of every `from`. */
  lemma {:induction false} ReplacedPieces(s: string, from: string, to: string, ts: seq<string>)
    requires from != "" && Pieces(s, from, ts)
    ensures ReplaceAll(s, from, to) == Join(ts, to)
    decreases |ts|
  {
    hide ReplaceAll, UpToFirst, Without;
    if |ts| == 1 {
      NothingToReplace(s, from, to);
    } else {
      var rest := Join(ts[1..], from);
      ReplacedPieces(rest, from, to, ts[1..]);
      ReplaceFirst(ts[0], from, to, rest);
    }
  }

  /** Every string has its pieces. */
  lemma {:induction false} CutInPieces(s: string, from: string) returns (ts: seq<string>)
    requires from != ""
    ensures Pieces(s, from, ts)
    decreases |s|
  {
    hide UpToFirst, Without;
    var p := StrStr(s, from, 0);
    if p == None {
      NoMatch(s, from);
      ts := [s];
    } else {
      var t, rest := s[..p.value], s[p.value + |from|..];
      var us := CutInPieces(rest, from);
      ts := [t] + us;
      UntilFirst(s, from);
      assert ts[1..] == us && s == t + from + rest;
    }
  }

  lemma NoMatch(s: string, from: string)
    requires StrStr(s, from, 0) == None
    ensures Without(s, from)
  {
    if pre: string, post: string :| s == pre + from + post {
      OccursBetween(pre, from, post);
      LeastMatch(s, from, 0, |pre|);
    }
  }

  lemma UntilFirst(s: string, from: string)
    requires StrStr(s, from, 0).Some?
    ensures UpToFirst(s[..StrStr(s, from, 0).value], from)
  {
    var p := StrStr(s, from, 0).value;
    var t, rest := s[..p], s[p + |from|..];
    assert s == t + from + rest;
    forall pre: string, post: string | t + from == pre + from + post ensures post == "" {
      assert s == pre + from + (post + rest);
      OccursBetween(pre, from, post + rest);
      LeastMatch(s, from, 0, |pre|);
      assert |t + from| == |pre + from + post|;
    }
  }
}
