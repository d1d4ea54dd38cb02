/** src/repl_str.c: replace all, in two passes over a growing cache of match positions. */
module ReplStr {
  import opened Numbers
  import opened Wrappers
  import opened Allocation

  const CACHE_SZ_INC_FACTOR := 3
  const CACHE_SZ_INC_MAX := 1048576

  // ----- the specification

  predicate Occurs(s: string, from: string, i: nat) {
    i + |from| <= |s| && s[i..i + |from|] == from
  }

  /** Leftmost, non-overlapping replacement of everything from position `i` on. */
  function ReplaceFrom(s: string, from: string, to: string, i: nat): string
    requires i <= |s| && |from| > 0
    decreases |s| - i
  {
    if i == |s| then ""
    else if Occurs(s, from, i) then to + ReplaceFrom(s, from, to, i + |from|)
    else [s[i]] + ReplaceFrom(s, from, to, i + 1)
  }

  function ReplaceAll(s: string, from: string, to: string): string
    requires |from| > 0
  {
    ReplaceFrom(s, from, to, 0)
  }

  /** `strstr(s + i, from)` as an offset into `s`. */
  function StrStr(s: string, from: string, i: nat): (p: Option<nat>)
    requires i <= |s|
    ensures p.Some? ==> i <= p.value && p.value + |from| <= |s| && Occurs(s, from, p.value)
    decreases |s| - i
  {
    if Occurs(s, from, i) then Some(i)
    else if i == |s| then None
    else StrStr(s, from, i + 1)
  }

  /** From position `i` on: the text up to the first match, the replacement, and what follows. */
  ghost predicate UpToMatch(s: string, from: string, to: string, i: nat)
    requires i <= |s| && |from| > 0
  {
    var p := StrStr(s, from, i);
    ReplaceFrom(s, from, to, i) ==
    if p.Some? then s[i..p.value] + (to + ReplaceFrom(s, from, to, p.value + |from|)) else s[i..]
  }

  lemma {:induction false} BeforeMatch(s: string, from: string, to: string, i: nat)
    requires i <= |s| && |from| > 0
    ensures UpToMatch(s, from, to, i)
    decreases |s| - i
  {
    hide UpToMatch, StrStr, ReplaceFrom;
    if i == |s| {
      NoMatchLeft(s, from, to);
    } else if Occurs(s, from, i) {
      MatchHere(s, from, to, i);
    } else {
      BeforeMatch(s, from, to, i + 1);
      MatchLater(s, from, to, i);
    }
  }

  lemma NoMatchLeft(s: string, from: string, to: string)
    requires |from| > 0
    ensures UpToMatch(s, from, to, |s|)
  {
  }

  lemma MatchHere(s: string, from: string, to: string, i: nat)
    requires i < |s| && |from| > 0 && Occurs(s, from, i)
    ensures UpToMatch(s, from, to, i)
  {
    OneStep(s, from, to, i);
    hide StrStr, ReplaceFrom;
    OneMoreChar(s, i, i, to + ReplaceFrom(s, from, to, i + |from|));
  }

  lemma MatchLater(s: string, from: string, to: string, i: nat)
    requires i < |s| && |from| > 0 && !Occurs(s, from, i) && UpToMatch(s, from, to, i + 1)
    ensures UpToMatch(s, from, to, i)
  {
    hide StrStr, ReplaceFrom, Occurs;
    OneStep(s, from, to, i);
    var p := StrStr(s, from, i);
    if p.Some? {
      LaterMatch(s, i, p.value, to + ReplaceFrom(s, from, to, p.value + |from|), ReplaceFrom(s, from, to, i + 1));
    }
  }

  lemma LaterMatch(s: string, i: nat, p: nat, tail: string, rest: string)
    requires i < p <= |s| && rest == s[i + 1..p] + tail
    ensures [s[i]] + rest == s[i..p] + tail
  {
    OneMoreChar(s, i, p, tail);
  }

  lemma OneStep(s: string, from: string, to: string, i: nat)
    requires i <= |s| && |from| > 0
    ensures i == |s| ==> StrStr(s, from, i) == None && ReplaceFrom(s, from, to, i) == "" == s[i..]
    ensures i < |s| && Occurs(s, from, i) ==>
              && i + |from| <= |s| && StrStr(s, from, i) == Some(i)
              && ReplaceFrom(s, from, to, i) == to + ReplaceFrom(s, from, to, i + |from|)
    ensures i < |s| && !Occurs(s, from, i) ==>
              && StrStr(s, from, i) == StrStr(s, from, i + 1)
              && ReplaceFrom(s, from, to, i) == [s[i]] + ReplaceFrom(s, from, to, i + 1)
              && s[i..] == [s[i]] + s[i + 1..]
    ensures var p := StrStr(s, from, i); p.Some? ==> i <= p.value && p.value + |from| <= |s| && Occurs(s, from, p.value)
  {
  }

  lemma OneMoreChar(s: string, i: nat, p: nat, rest: string)
    requires i <= p <= |s| && i < |s|
    ensures i == p ==> s[i..p] + rest == rest
    ensures i < p ==> s[i..p] + rest == [s[i]] + (s[i + 1..p] + rest)
  {
  }

  // ----- the cache of positions

  /** Where the search for match `n` starts. */
  function Start(from: string, positions: seq<nat>, n: nat): nat
    requires n <= |positions|
  {
    if n == 0 then 0 else positions[n - 1] + |from|
  }

  /** Every position is the first match at or after the end of the one before. */
  ghost predicate Found(s: string, from: string, positions: seq<nat>)
  {
    forall n :: 0 <= n < |positions| ==>
                  Start(from, positions, n) <= |s| && StrStr(s, from, Start(from, positions, n)) == Some(positions[n])
  }

  lemma {:induction false} FoundStart(s: string, from: string, positions: seq<nat>, n: nat)
    requires Found(s, from, positions) && n <= |positions|
    ensures Start(from, positions, n) <= |s|
    ensures n > 0 ==> Start(from, positions, n - 1) <= positions[n - 1] && positions[n - 1] + |from| <= |s|
  {
    if n > 0 {
      FoundStart(s, from, positions, n - 1);
      assert StrStr(s, from, Start(from, positions, n - 1)) == Some(positions[n - 1]);
    }
  }

  /** `d * k`, by addition. */
  function Times(d: int, k: nat): int {
    if k == 0 then 0 else d + Times(d, k - 1)
  }

  lemma {:induction false} TimesIs(d: int, k: nat)
    ensures Times(d, k) == d * k
  {
    if k > 0 {
      TimesIs(d, k - 1);
      assert d * k == d * (k - 1) + d;
    }
  }

  /** No match is left after the cached ones. */
  ghost predicate Complete(s: string, from: string, positions: seq<nat>)
  {
    && Found(s, from, positions)
    && Start(from, positions, |positions|) <= |s| && StrStr(s, from, Start(from, positions, |positions|)) == None
  }

  /** From the start of the search for match `n`: text, replacement, and so on. */
  lemma StepFrom(s: string, from: string, to: string, positions: seq<nat>, n: nat)
    requires |from| > 0 && Complete(s, from, positions) && n <= |positions|
    ensures Start(from, positions, n) <= |s|
    ensures n < |positions| ==>
              && Start(from, positions, n) <= positions[n]
              && Start(from, positions, n + 1) == positions[n] + |from| <= |s|
              && ReplaceFrom(s, from, to, Start(from, positions, n)) ==
                 s[Start(from, positions, n)..positions[n]]
                 + (to + ReplaceFrom(s, from, to, Start(from, positions, n + 1)))
    ensures n == |positions| ==> ReplaceFrom(s, from, to, Start(from, positions, n)) == s[Start(from, positions, n)..]
  {
    hide StrStr, ReplaceFrom, Complete, Start;
    SearchAt(s, from, positions, n);
    BeforeMatch(s, from, to, Start(from, positions, n));
  }

  /** Every search finds the next cached position; the last one finds nothing. */
  lemma SearchAt(s: string, from: string, positions: seq<nat>, n: nat)
    requires |from| > 0 && Complete(s, from, positions) && n <= |positions|
    ensures Start(from, positions, n) <= |s|
    ensures StrStr(s, from, Start(from, positions, n)) == if n < |positions| then Some(positions[n]) else None
    ensures n < |positions| ==>
              Start(from, positions, n) <= positions[n] && Start(from, positions, n + 1) == positions[n] + |from| <= |s|
  {
    hide StrStr;
    FoundStart(s, from, positions, n);
    if n < |positions| {
      FoundStart(s, from, positions, n + 1);
    }
  }

  /** The true length of what remains to be written from match `n` on. */
  lemma {:induction false} LengthFrom(s: string, from: string, to: string, positions: seq<nat>, n: nat)
    requires |from| > 0 && Complete(s, from, positions) && n <= |positions|
    ensures Start(from, positions, n) <= |s|
    ensures |ReplaceFrom(s, from, to, Start(from, positions, n))| ==
            |s| - Start(from, positions, n) + Times(|to| - |from|, |positions| - n)
    decreases |positions| - n
  {
    hide Complete, Start, ReplaceFrom;
    StepFrom(s, from, to, positions, n);
    if n < |positions| {
      LengthFrom(s, from, to, positions, n + 1);
    }
  }

  // ----- length arithmetic in `size_t`

  /** `orglen + (tolen - fromlen) * count`, every operation modulo 2^64. */
  function WrappedLength(orglen: nat, tolen: nat, fromlen: nat, count: nat): int {
    (orglen + (tolen - fromlen) % SIZE_MODULUS * count % SIZE_MODULUS) % SIZE_MODULUS
  }

  /** The subtraction may wrap; the sum is right all the same. */
  lemma WrapIsHarmless(orglen: nat, tolen: nat, fromlen: nat, count: nat)
    requires 0 <= orglen + (tolen - fromlen) * count < SIZE_MODULUS
    ensures WrappedLength(orglen, tolen, fromlen, count) == orglen + (tolen - fromlen) * count
  {
    var d := tolen - fromlen;
    var k := d / SIZE_MODULUS;
    var r := d % SIZE_MODULUS;
    assert d == k * SIZE_MODULUS + r;
    var product := r * count;
    assert d * count == (k * count) * SIZE_MODULUS + product by {
      assert (k * SIZE_MODULUS + r) * count == k * SIZE_MODULUS * count + r * count;
    }
    SameResidue(orglen, product, k * count);
  }

  lemma SameResidue(a: nat, x: int, k: int)
    requires 0 <= a + x + k * SIZE_MODULUS < SIZE_MODULUS
    ensures (a + x % SIZE_MODULUS) % SIZE_MODULUS == a + x + k * SIZE_MODULUS
  {
  }

  // ----- the code

  datatype Cache = Cache(block: Option<Block>, size: nat, positions: array<nat>)

  /** Make room for one more position: by 16, then by three times as much each time, at most by
      1048576.  When `realloc` fails the old cache is still there. */
  method GrowCache(cache: Cache, increment: nat, alloc: Allocator, ghost rest: multiset<Block>)
    returns (ok: bool, cache': Cache)
    requires alloc.Valid() && alloc.live == rest + Blocks(cache.block)
    requires cache.size == cache.positions.Length && 1 <= increment
    modifies alloc
    ensures alloc.Valid() && alloc.live == rest + Blocks(cache'.block) && alloc.calls == old(alloc.calls) + 1
    ensures ok <==> !alloc.fails(old(alloc.calls))
    ensures !ok ==> cache' == cache
    ensures ok ==> cache'.size == cache'.positions.Length == cache.size + increment && fresh(cache'.positions)
    ensures ok ==> cache'.positions[..cache.size] == cache.positions[..]
    ensures cache.positions[..] == old(cache.positions[..])
  {
    var block := alloc.Reallocate(cache.block, rest);
    if block.None? {
      return false, cache;
    }
    var bigger := new nat[cache.size + increment];
    forall k | 0 <= k < cache.size {
      bigger[k] := cache.positions[k];
    }
    return true, Cache(block, cache.size + increment, bigger);
  }

  /** Record match `count`, growing the cache first when it is full. */
  method Record(cache: Cache, count: nat, increment: nat, p: nat, alloc: Allocator, ghost rest: multiset<Block>)
    returns (ok: bool, cache': Cache, increment': nat)
    requires alloc.Valid() && alloc.live == rest + Blocks(cache.block)
    requires count <= cache.size == cache.positions.Length && 1 <= increment
    modifies cache.positions, alloc
    ensures alloc.Valid() && alloc.live == rest + Blocks(cache'.block) && alloc.calls >= old(alloc.calls)
    ensures alloc.NoFailure(old(alloc.calls), alloc.calls) <==> ok
    ensures alloc.calls == old(alloc.calls) + if count < cache.size then 0 else 1
    ensures cache'.size == if count < cache.size || !ok then cache.size else cache.size + increment
    ensures increment' ==
            if count < cache.size || !ok then increment
            else if 3 * increment > 1048576 then 1048576 else 3 * increment
    ensures cache'.positions == cache.positions || fresh(cache'.positions)
    ensures count <= cache'.size == cache'.positions.Length && 1 <= increment'
    ensures ok ==> count < cache'.size && cache'.positions[..count + 1] == old(cache.positions[..count]) + [p]
  {
    ok, cache', increment' := true, cache, increment;
    if cache.size < count + 1 {
      ok, cache' := GrowCache(cache, increment, alloc, rest);
      if !ok {
        return;
      }
      increment' := increment * CACHE_SZ_INC_FACTOR;
      if increment' > CACHE_SZ_INC_MAX {
        increment' := CACHE_SZ_INC_MAX;
      }
      assert cache'.positions[..count] == cache'.positions[..cache.size][..count];
    }
    assert cache'.positions[..count] == old(cache.positions[..count]);
    cache'.positions[count] := p;
  }

  /** The first loop: all matches, left to right.  With an empty `from` the same match is found again
      and again, until the cache cannot grow: request `doom` is one that fails. */
  method FindAll(str: string, from: string, alloc: Allocator, ghost doom: nat, ghost rest: multiset<Block>)
    returns (ok: bool, cache: Cache, count: nat)
    requires alloc.Valid() && alloc.live == rest
    requires from == "" ==> alloc.calls <= doom && alloc.fails(doom)
    modifies alloc
    ensures alloc.Valid() && alloc.live == rest + Blocks(cache.block) && alloc.calls >= old(alloc.calls)
    ensures fresh(cache.positions) && count <= cache.positions.Length
    ensures ok ==> from != "" && Complete(str, from, cache.positions[..count])
    ensures alloc.NoFailure(old(alloc.calls), alloc.calls) <==> ok
  {
    hide StrStr, Found, Start, Complete;
    var none := new nat[0];
    var increment: nat := 16;
    cache, count, ok := Cache(None, 0, none), 0, true;
    var pstr: nat := 0;
    ghost var found: seq<nat> := [];
    NothingFound(str, from);
    while true
      invariant alloc.Valid() && alloc.live == rest + Blocks(cache.block) && alloc.calls >= old(alloc.calls)
      invariant fresh(cache.positions) && count <= cache.size == cache.positions.Length && 1 <= increment
      invariant found == cache.positions[..count] && |found| == count
      invariant pstr <= |str| && Found(str, from, found) && pstr == Start(from, found, count)
      invariant ok && alloc.NoFailure(old(alloc.calls), alloc.calls)
      invariant from == "" ==> pstr == 0 && alloc.calls <= doom
      decreases if from != "" then |str| - pstr else doom - alloc.calls, cache.size - count
    {
      EmptyMatches(str, from);
      var match_ := StrStr(str, from, pstr);
      if match_.None? {
        AllFound(str, from, found);
        break;
      }
      ok, cache, increment := Record(cache, count, increment, match_.value, alloc, rest);
      if !ok {
        return;
      }
      FoundOneMore(str, from, found, match_.value);
      count, found := count + 1, found + [match_.value];
      pstr := match_.value + |from|;
    }
  }

  /** `strstr` finds the empty string at once. */
  lemma EmptyMatches(s: string, from: string)
    ensures from == "" ==> StrStr(s, from, 0) == Some(0)
  {
  }

  lemma NothingFound(s: string, from: string)
    ensures Found(s, from, []) && Start(from, [], 0) == 0
  {
  }

  lemma AllFound(s: string, from: string, positions: seq<nat>)
    requires Found(s, from, positions)
    requires var start := Start(from, positions, |positions|); start <= |s| && StrStr(s, from, start) == None
    ensures Complete(s, from, positions)
  {
  }

  lemma FoundOneMore(s: string, from: string, positions: seq<nat>, p: nat)
    requires Found(s, from, positions)
    requires var start := Start(from, positions, |positions|); start <= |s| && StrStr(s, from, start) == Some(p)
    ensures Found(s, from, positions + [p]) && Start(from, positions + [p], |positions| + 1) == p + |from|
  {
    hide Found, Start, StrStr;
    var longer := positions + [p];
    forall n | 0 <= n < |longer|
      ensures Start(from, longer, n) <= |s| && StrStr(s, from, Start(from, longer, n)) == Some(longer[n])
    {
      StartSame(from, positions, p, n);
      FoundAt(s, from, positions, n);
    }
    FoundIs(s, from, longer);
    StartSame(from, positions, p, |positions| + 1);
  }

  lemma StartSame(from: string, positions: seq<nat>, p: nat, n: nat)
    requires n <= |positions| + 1
    ensures Start(from, positions + [p], n) == if n <= |positions| then Start(from, positions, n) else p + |from|
  {
  }

  lemma FoundAt(s: string, from: string, positions: seq<nat>, n: nat)
    requires Found(s, from, positions) && n <= |positions|
    ensures Start(from, positions, n) <= |s|
    ensures n < |positions| ==> StrStr(s, from, Start(from, positions, n)) == Some(positions[n])
  {
    FoundStart(s, from, positions, n);
  }

  lemma FoundIs(s: string, from: string, positions: seq<nat>)
    requires forall n :: 0 <= n < |positions| ==>
                           Start(from, positions, n) <= |s|
                           && StrStr(s, from, Start(from, positions, n)) == Some(positions[n])
    ensures Found(s, from, positions)
  {
  }

  /** The cached positions are matches, at least `|from|` apart. */
  lemma {:induction false} MatchesAreApart(s: string, from: string, positions: seq<nat>, m: nat, n: nat)
    requires |from| > 0 && Found(s, from, positions) && m < n < |positions|
    ensures positions[m] + |from| <= positions[n] && Occurs(s, from, positions[n])
    decreases n - m
  {
    hide Found, StrStr;
    if m < n - 1 {
      MatchesAreApart(s, from, positions, m, n - 1);
    }
    FoundAt(s, from, positions, n);
    assert Start(from, positions, n) == positions[n - 1] + |from|;
  }

  /** Where the text between match `n - 1` and match `n` ends. */
  function TextEnd(s: string, positions: seq<nat>, n: nat): nat {
    if n < |positions| then positions[n] else |s|
  }

  /** What is still to be written when the text before match `n` has been. */
  function Rest(s: string, from: string, to: string, positions: seq<nat>, n: nat): string
    requires |from| > 0 && n <= |positions|
  {
    if n < |positions| && Start(from, positions, n + 1) <= |s| then
      to + ReplaceFrom(s, from, to, Start(from, positions, n + 1))
    else ""
  }

  lemma RestStep(s: string, from: string, to: string, positions: seq<nat>, n: nat)
    requires |from| > 0 && Complete(s, from, positions) && n <= |positions|
    ensures Start(from, positions, n) <= TextEnd(s, positions, n) <= |s|
    ensures ReplaceFrom(s, from, to, Start(from, positions, n)) ==
            s[Start(from, positions, n)..TextEnd(s, positions, n)] + Rest(s, from, to, positions, n)
    ensures n < |positions| ==> Start(from, positions, n + 1) <= |s|
    ensures n < |positions| ==>
              Rest(s, from, to, positions, n) == to + ReplaceFrom(s, from, to, Start(from, positions, n + 1))
  {
    StepFrom(s, from, to, positions, n);
    hide ReplaceFrom, Complete;
  }

  /** `memcpy(ret + pret, text, strlen(text))`. */
  method Put(ret: array<char>, pret: nat, text: string)
    requires pret + |text| <= ret.Length
    modifies ret
    ensures ret[..pret + |text|] == old(ret[..pret]) + text
  {
    forall k | 0 <= k < |text| {
      ret[pret + k] := text[k];
    }
  }

  /** The second loop, with exactly `retlen` characters written. */
  method CopyReplaced(
    str: string, from: string, to: string, posCache: array<nat>, count: nat, ret: array<char>, retlen: nat)
    requires 0 < |from| && 0 < count <= posCache.Length && Complete(str, from, posCache[..count])
    requires retlen == |ReplaceAll(str, from, to)| && ret.Length == retlen + 1
    modifies ret
    ensures ret[..retlen] == ReplaceAll(str, from, to) && ret[retlen] == '\0'
  {
    hide *;
    ghost var positions, whole := posCache[..count], ReplaceAll(str, from, to);
    WholeStarts(str, from, to, positions);
    RestStep(str, from, to, positions, 0);
    Put(ret, 0, str[..posCache[0]]);
    var pret: nat := posCache[0];
    for i := 0 to count
      invariant pret <= retlen && ret[..pret] + Rest(str, from, to, positions, i) == whole
    {
      StartAfter(str, from, positions, i);
      RestStep(str, from, to, positions, i);
      RestStep(str, from, to, positions, i + 1);
      var pstr: nat := posCache[i] + |from|;
      var next: nat := if i == count - 1 then |str| else posCache[i + 1];
      var cpylen := next - posCache[i] - |from|;
      ghost var done, rest := ret[..pret], Rest(str, from, to, positions, i + 1);
      Regroup(done, to, str[pstr..pstr + cpylen], rest);
      Put(ret, pret, to);
      pret := pret + |to|;
      Put(ret, pret, str[pstr..pstr + cpylen]);
      pret := pret + cpylen;
    }
    RestEnd(str, from, to, positions);
    NothingAfter(ret[..pret]);
    ret[retlen] := '\0';
  }

  /** `rcutils_repl_str`: a new string with every match replaced, or nothing when a request failed;
      the cache is gone in either case.  The true length, with its NUL, must fit in a `size_t`.  With an
      empty `from` the result is nothing; that the call returns at all takes a request that fails. */
  method ReplaceString(str: string, from: string, to: string, alloc: Allocator, ghost rest: multiset<Block>)
    returns (ret: array?<char>, block: Option<Block>)
    requires from != "" ==> |ReplaceAll(str, from, to)| + 1 < SIZE_MODULUS
    requires from == "" ==> exists doom :: alloc.calls <= doom && alloc.fails(doom)
    requires alloc.Valid() && alloc.live == rest
    modifies alloc
    ensures alloc.Valid() && alloc.live == rest + Blocks(block) && (ret == null <==> block.None?)
    ensures ret != null ==> from != "" && fresh(ret) && ret.Length == |ReplaceAll(str, from, to)| + 1
    ensures ret != null ==> ret[..ret.Length - 1] == ReplaceAll(str, from, to) && ret[ret.Length - 1] == '\0'
    ensures alloc.NoFailure(old(alloc.calls), alloc.calls) <==> ret != null
  {
    hide Complete, ReplaceAll, Blocks, StrStr, Allocator.Valid;
    ret, block := null, None;
    ghost var doom: nat := 0;
    if from == "" {
      doom :| alloc.calls <= doom && alloc.fails(doom);
    }
    var ok, cache, count := FindAll(str, from, alloc, doom, rest);
    if ok {
      var retlen := ResultLength(str, from, to, cache.positions, count);
      block := alloc.Allocate();
      if block.Some? {
        ret := WriteResult(str, from, to, cache.positions, count, retlen);
      }
    }
    OneBlockMore(rest, cache.block, block);
    alloc.Deallocate(cache.block, rest + Blocks(block));
  }

  lemma OneBlockMore(rest: multiset<Block>, cache: Option<Block>, block: Option<Block>)
    ensures block.None? ==> rest + Blocks(block) == rest
    ensures rest + Blocks(cache) + Blocks(block) == rest + Blocks(block) + Blocks(cache)
    ensures block.Some? ==> rest + Blocks(cache) + multiset{block.value} == rest + Blocks(block) + Blocks(cache)
  {
  }

  method ResultLength(str: string, from: string, to: string, posCache: array<nat>, count: nat) returns (retlen: nat)
    requires 0 < |from| && |ReplaceAll(str, from, to)| + 1 < SIZE_MODULUS
    requires count <= posCache.Length && Complete(str, from, posCache[..count])
    ensures retlen == |ReplaceAll(str, from, to)|
  {
    var orglen := |str|;
    LengthIs(str, from, to, posCache[..count]);
    if count > 0 {
      retlen := WrappedLength(orglen, |to|, |from|, count);
    } else {
      assert posCache[..count] == [];
      Unchanged(str, from, to);
      retlen := orglen;
    }
  }

  method WriteResult(str: string, from: string, to: string, posCache: array<nat>, count: nat, retlen: nat)
    returns (ret: array<char>)
    requires 0 < |from| && retlen == |ReplaceAll(str, from, to)|
    requires count <= posCache.Length && Complete(str, from, posCache[..count])
    ensures fresh(ret) && ret.Length == retlen + 1 && ret[..retlen] == ReplaceAll(str, from, to) && ret[retlen] == '\0'
  {
    hide Complete, ReplaceAll;
    ret := new char[retlen + 1];
    if count == 0 {
      assert posCache[..count] == [];
      Unchanged(str, from, to);
      Put(ret, 0, str);
      ret[retlen] := '\0';
    } else {
      CopyReplaced(str, from, to, posCache, count, ret, retlen);
    }
  }

  /** The wrapped arithmetic gives the true length. */
  lemma LengthIs(s: string, from: string, to: string, positions: seq<nat>)
    requires 0 < |from| && Complete(s, from, positions) && |ReplaceAll(s, from, to)| < SIZE_MODULUS
    ensures WrappedLength(|s|, |to|, |from|, |positions|) == |ReplaceAll(s, from, to)|
  {
    hide Complete, ReplaceFrom, WrappedLength;
    LengthFrom(s, from, to, positions, 0);
    TimesIs(|to| - |from|, |positions|);
    WrapIsHarmless(|s|, |to|, |from|, |positions|);
  }

  lemma Unchanged(s: string, from: string, to: string)
    requires 0 < |from| && Complete(s, from, [])
    ensures ReplaceAll(s, from, to) == s
  {
    BeforeMatch(s, from, to, 0);
  }

  lemma WholeStarts(s: string, from: string, to: string, positions: seq<nat>)
    requires 0 < |from| && 0 < |positions|
    ensures ReplaceAll(s, from, to) == ReplaceFrom(s, from, to, 0) && Start(from, positions, 0) == 0
    ensures TextEnd(s, positions, 0) == positions[0]
  {
  }

  lemma StartAfter(s: string, from: string, positions: seq<nat>, n: nat)
    requires n < |positions|
    ensures Start(from, positions, n + 1) == positions[n] + |from|
    ensures TextEnd(s, positions, n + 1) == if n == |positions| - 1 then |s| else positions[n + 1]
  {
  }

  lemma RestEnd(s: string, from: string, to: string, positions: seq<nat>)
    requires 0 < |from|
    ensures Rest(s, from, to, positions, |positions|) == ""
  {
  }

  lemma Regroup(a: string, b: string, c: string, d: string)
    ensures a + (b + (c + d)) == a + b + c + d
  {
  }

  lemma NothingAfter(s: string)
    ensures s + "" == s
  {
  }
}
