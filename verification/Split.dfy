/** `rcutils_split` of src/split.c, with the string array of src/string_array.c it fills. */
module Split {
  import opened Wrappers
  import opened Allocation

  // ----- the specification

  /** A maximal run without the delimiter, from `i` up to `j`. */
  predicate IsRun(s: string, d: char, i: nat, j: nat) {
    && i < j <= |s| && (forall k :: i <= k < j ==> s[k] != d)
    && (i == 0 || s[i - 1] == d) && (j == |s| || s[j] == d)
  }

  function RunEnd(s: string, d: char, i: nat): (j: nat)
    requires i <= |s|
    ensures i <= j <= |s| && (forall k :: i <= k < j ==> s[k] != d) && (j < |s| ==> s[j] == d)
    decreases |s| - i
  {
    if i == |s| || s[i] == d then i else RunEnd(s, d, i + 1)
  }

  /** The runs that begin at or after `i`, as positions. */
  function Runs(s: string, d: char, i: nat): seq<(nat, nat)>
    requires i <= |s|
    decreases |s| - i
  {
    if i == |s| then []
    else if s[i] == d then Runs(s, d, i + 1)
    else [(i, RunEnd(s, d, i))] + Runs(s, d, RunEnd(s, d, i))
  }

  /** `Runs` lists exactly the maximal runs .. */
  lemma {:induction false} RunsAreTheRuns(s: string, d: char, i: nat, r: (nat, nat))
    requires i <= |s| && (i == 0 || i == |s| || s[i - 1] == d || s[i] == d)
    ensures r in Runs(s, d, i) <==> i <= r.0 && IsRun(s, d, r.0, r.1)
    decreases |s| - i
  {
    if i < |s| {
      RunsAreTheRuns(s, d, if s[i] == d then i + 1 else RunEnd(s, d, i), r);
    }
  }

  /** .. from left to right, with a delimiter between them. */
  lemma {:induction false} RunsAreOrdered(s: string, d: char, i: nat, m: nat, n: nat)
    requires i <= |s| && (i == 0 || i == |s| || s[i - 1] == d || s[i] == d)
    requires m < n < |Runs(s, d, i)|
    ensures Runs(s, d, i)[m].1 < Runs(s, d, i)[n].0
    decreases |s| - i
  {
    if s[i] == d {
      RunsAreOrdered(s, d, i + 1, m, n);
    } else {
      var j := RunEnd(s, d, i);
      if m > 0 {
        RunsAreOrdered(s, d, j, m - 1, n - 1);
      } else {
        RunsAreTheRuns(s, d, j, Runs(s, d, j)[n - 1]);
      }
    }
  }

  function Tokens(s: string, d: char, i: nat): seq<string>
    requires i <= |s|
    decreases |s| - i
  {
    if i == |s| then []
    else if s[i] == d then Tokens(s, d, i + 1)
    else [s[i..RunEnd(s, d, i)]] + Tokens(s, d, RunEnd(s, d, i))
  }

  lemma {:induction false} TokensAreRuns(s: string, d: char, i: nat)
    requires i <= |s|
    ensures |Tokens(s, d, i)| == |Runs(s, d, i)|
    ensures forall n :: 0 <= n < |Runs(s, d, i)| ==>
                          var r := Runs(s, d, i)[n]; r.0 <= r.1 <= |s| && Tokens(s, d, i)[n] == s[r.0..r.1]
    decreases |s| - i
  {
    if i < |s| {
      TokensAreRuns(s, d, if s[i] == d then i + 1 else RunEnd(s, d, i));
    }
  }

  /** A run that ends at the delimiter `j` is the next token. */
  lemma NextToken(s: string, d: char, i: nat, j: nat)
    requires i <= j <= |s| && (forall k :: i <= k < j ==> s[k] != d) && (j < |s| ==> s[j] == d)
    ensures Tokens(s, d, i) == (if i < j then [s[i..j]] else []) + Tokens(s, d, if j < |s| then j + 1 else j)
  {
    if i < j {
      assert RunEnd(s, d, i) == j;
    }
  }

  /** How many delimiters there are from `i` up to `end`. */
  function Delimiters(s: string, d: char, i: nat, end: nat): nat
    requires end <= |s|
    decreases end - i
  {
    if i >= end then 0 else (if s[i] == d then 1 else 0) + Delimiters(s, d, i + 1, end)
  }

  // ----- the string array

  datatype Token = Token(text: string, block: Block)

  ghost function BlockOf(slot: Option<Token>): multiset<Block> {
    if slot.Some? then multiset{slot.value.block} else multiset{}
  }

  ghost function TokenBlocks(data: seq<Option<Token>>): multiset<Block> {
    Sum(slot => BlockOf(slot), data)
  }

  lemma TokenBlocksSet(data: seq<Option<Token>>, n: nat, slot: Option<Token>)
    requires n < |data| && data[n].None?
    ensures TokenBlocks(data[n := slot]) == TokenBlocks(data) + BlockOf(slot)
  {
    SumUpdate(x => BlockOf(x), data, n, slot);
  }

  lemma {:induction false} NoTokenBlocks(data: seq<Option<Token>>)
    requires forall k :: 0 <= k < |data| ==> data[k].None?
    ensures TokenBlocks(data) == multiset{}
  {
    if data != [] {
      NoTokenBlocks(data[1..]);
    }
  }

  lemma TokenBlocksPeel(data: seq<Option<Token>>, i: nat)
    requires i < |data|
    ensures TokenBlocks(data[i..]) == TokenBlocks(data[i + 1..]) + BlockOf(data[i])
  {
    assert data[i..][1..] == data[i + 1..];
  }

  ghost predicate AllSome(data: seq<Option<Token>>) {
    forall k :: 0 <= k < |data| ==> data[k].Some?
  }

  ghost function Texts(data: seq<Option<Token>>): seq<string>
    requires AllSome(data)
  {
    seq(|data|, k requires 0 <= k < |data| => data[k].value.text)
  }

  class StringArray {
    const data: array<Option<Token>>
    const block: Option<Block>
    var size: nat

    /** The first `n` slots are stored tokens, all others are NULL, and `size` covers the tokens. */
    ghost predicate Filled(n: nat)
      reads this, data
    {
      && n <= size <= data.Length && AllSome(data[..n])
      && forall k :: n <= k < data.Length ==> data[k].None?
    }

    ghost function Owned(): multiset<Block>
      reads data
    {
      Blocks(block) + TokenBlocks(data[..])
    }

    /** The zero-initialised array is the one without a block. */
    constructor (size: nat, block: Option<Block>)
      ensures Filled(0) && this.size == size == data.Length && this.block == block && fresh(data)
    {
      this.data, this.block, this.size := new Option<Token>[size](_ => None), block, size;
    }

    /** `rcutils_string_array_fini`. */
    method Fini(ghost n: nat, alloc: Allocator, ghost rest: multiset<Block>)
      requires Filled(n) && alloc.Valid() && alloc.live == rest + Owned()
      modifies this, data, alloc`live
      ensures alloc.Valid() && alloc.live == rest && size == 0
    {
      hide TokenBlocks;
      ghost var tokens := data[..];
      assert tokens[0..] == tokens;
      for i := 0 to size
        invariant size == old(size) && alloc.Valid() && alloc.live == rest + Blocks(block) + TokenBlocks(tokens[i..])
        invariant forall k :: i <= k < data.Length ==> data[k] == tokens[k]
      {
        TokenBlocksPeel(tokens, i);
        FreeSlot(data[i], alloc, rest + Blocks(block) + TokenBlocks(tokens[i + 1..]));
        data[i] := None;
      }
      NoTokenBlocks(tokens[size..]);
      alloc.Deallocate(block, rest);
      size := 0;
    }

    static method FreeSlot(slot: Option<Token>, alloc: Allocator, ghost rest: multiset<Block>)
      requires alloc.Valid() && alloc.live == rest + BlockOf(slot)
      modifies alloc`live
      ensures alloc.Valid() && alloc.live == rest
    {
      alloc.Deallocate(if slot.Some? then Some(slot.value.block) else None, rest);
    }

    /** Store the next token, a copy of `text`. */
    method Store(text: string, n: nat, alloc: Allocator, ghost rest: multiset<Block>) returns (ok: bool)
      requires Filled(n) && n < size && alloc.Valid() && alloc.live == rest + Owned()
      modifies data, alloc
      ensures alloc.Valid() && alloc.live == rest + Owned() && alloc.calls == old(alloc.calls) + 1
      ensures ok <==> !alloc.fails(old(alloc.calls))
      ensures !ok ==> Filled(n) && data[..] == old(data[..])
      ensures ok ==> Filled(n + 1) && Texts(data[..n + 1]) == old(Texts(data[..n])) + [text]
    {
      hide TokenBlocks;
      var copy := alloc.Allocate();
      if copy.None? {
        return false;
      }
      ghost var before := data[..];
      TokenBlocksSet(before, n, Some(Token(text, copy.value)));
      data[n] := Some(Token(text, copy.value));
      assert data[..] == before[n := Some(Token(text, copy.value))];
      ok := true;
    }

    /** Two delimiters in a row, or one at an end: one token fewer. */
    method Shrink(ghost n: nat)
      requires Filled(n) && n < size
      modifies this`size, data
      ensures Filled(n) && size == old(size) - 1 && data[..] == old(data[..])
      ensures data[..n] == old(data[..n]) && Owned() == old(Owned())
    {
      size := size - 1;
      data[size] := None;
    }
  }

  // ----- the code

  /** The first loop: as many slots as there can be tokens. */
  method CountSlots(str: string, delimiter: char, from: nat, end: nat) returns (arraySize: nat)
    requires end <= |str|
    ensures arraySize == 1 + Delimiters(str, delimiter, from, end)
  {
    arraySize := 1;
    var i := from;
    while i < end
      invariant from <= i && arraySize + Delimiters(str, delimiter, i, end) == 1 + Delimiters(str, delimiter, from, end)
      decreases end - i
    {
      if str[i] == delimiter {
        arraySize := arraySize + 1;
      }
      i := i + 1;
    }
  }

  /** The state of the second loop: the tokens before `lhs` are stored in the first `n` slots, no
      delimiter lies between `lhs` and `rhs`, and `size` is one more than the tokens stored and the
      delimiters still to come, so the slot that is set to NULL is never one of theirs. */
  ghost predicate Splitting(str: string, d: char, end: nat, array_: StringArray, n: nat, lhs: nat, rhs: nat)
    reads array_, array_.data
  {
    && lhs <= rhs <= |str| && end <= |str| && array_.Filled(n)
    && Tokens(str, d, 0) == Texts(array_.data[..n]) + Tokens(str, d, lhs)
    && (forall k :: lhs <= k < rhs ==> str[k] != d)
    && array_.size == n + 1 + Delimiters(str, d, rhs, end)
  }

  /** One round of the loop at a delimiter. */
  method AtDelimiter(str: string, d: char, end: nat, array_: StringArray, n: nat, lhs: nat, rhs: nat,
                     alloc: Allocator, ghost rest: multiset<Block>) returns (ok: bool, n': nat)
    requires rhs < end && Splitting(str, d, end, array_, n, lhs, rhs) && str[rhs] == d
    requires alloc.Valid() && alloc.live == rest + array_.Owned()
    modifies array_, array_.data, alloc
    ensures alloc.Valid() && alloc.live == rest + array_.Owned() && alloc.calls >= old(alloc.calls)
    ensures alloc.NoFailure(old(alloc.calls), alloc.calls) ==> ok
    ensures ok ==> Splitting(str, d, end, array_, n', rhs + 1, rhs + 1)
    ensures !ok ==> array_.Filled(n) && n' == n
  {
    hide StringArray.Owned, Texts, Tokens;
    NextToken(str, d, lhs, rhs);
    ghost var texts := Texts(array_.data[..n]);
    assert texts + ([str[lhs..rhs]] + Tokens(str, d, rhs + 1)) == texts + [str[lhs..rhs]] + Tokens(str, d, rhs + 1);
    assert texts + ([] + Tokens(str, d, rhs + 1)) == texts + Tokens(str, d, rhs + 1);
    if rhs - lhs < 1 {
      array_.Shrink(n);
      return true, n;
    }
    ok := array_.Store(str[lhs..rhs], n, alloc, rest);
    n' := if ok then n + 1 else n;
    if !ok {
      array_.size := n;
    }
  }

  /** The second loop. */
  method SplitLoop(str: string, d: char, end: nat, start: nat, array_: StringArray, alloc: Allocator,
                   ghost rest: multiset<Block>)
    returns (ok: bool, n: nat, lhs: nat, rhs: nat)
    requires Splitting(str, d, end, array_, 0, start, start)
    requires alloc.Valid() && alloc.live == rest + array_.Owned()
    modifies array_, array_.data, alloc
    ensures alloc.Valid() && alloc.live == rest + array_.Owned() && alloc.calls >= old(alloc.calls)
    ensures alloc.NoFailure(old(alloc.calls), alloc.calls) ==> ok
    ensures array_.Filled(n)
    ensures ok ==> Splitting(str, d, end, array_, n, lhs, rhs) && end <= rhs && (rhs == end || rhs == start)
  {
    hide StringArray.Owned, Texts, Tokens, AllSome;
    ok, n, lhs, rhs := true, 0, start, start;
    while rhs < end
      invariant ok && Splitting(str, d, end, array_, n, lhs, rhs) && (rhs == start || rhs <= end)
      invariant alloc.Valid() && alloc.live == rest + array_.Owned() && alloc.calls >= old(alloc.calls)
      decreases end - rhs
    {
      if str[rhs] == d {
        ok, n := AtDelimiter(str, d, end, array_, n, lhs, rhs, alloc, rest);
        if !ok {
          return;
        }
        lhs := rhs + 1;
      }
      rhs := rhs + 1;
    }
  }

  /** The trailing token. */
  method LastToken(str: string, d: char, end: nat, array_: StringArray, n: nat, lhs: nat, rhs: nat,
                   alloc: Allocator, ghost rest: multiset<Block>) returns (ok: bool)
    requires Splitting(str, d, end, array_, n, lhs, rhs) && end <= rhs
    requires rhs == |str| || (rhs == |str| - 1 && str[rhs] == d)
    requires alloc.Valid() && alloc.live == rest + array_.Owned()
    modifies array_, array_.data, alloc
    ensures alloc.Valid() && alloc.live == rest + array_.Owned()
    ensures ok <==> lhs == rhs || !alloc.fails(old(alloc.calls))
    ensures alloc.NoFailure(old(alloc.calls), alloc.calls) ==> ok
    ensures !ok ==> array_.Filled(n)
    ensures ok ==> array_.Filled(array_.size) && Texts(array_.data[..array_.size]) == Tokens(str, d, 0)
  {
    hide StringArray.Owned, Texts;
    NextToken(str, d, lhs, rhs);
    hide Tokens;
    ghost var texts := Texts(array_.data[..n]);
    NothingAfter(str, d);
    assert texts + [] == texts;
    if rhs - lhs < 1 {
      array_.Shrink(n);
      return true;
    }
    assert [str[lhs..rhs]] + [] == [str[lhs..rhs]];
    ok := array_.Store(str[lhs..rhs], n, alloc, rest);
  }

  lemma NothingAfter(s: string, d: char)
    ensures Tokens(s, d, |s|) == []
  {
  }

  /** `rcutils_split`: the non-empty maximal runs in order, or nothing when a request failed, with
      everything allocated on the way freed again. */
  method SplitString(str: string, d: char, alloc: Allocator, ghost rest: multiset<Block>)
    returns (ret: Ret, array_: StringArray?)
    requires alloc.Valid() && alloc.live == rest
    modifies alloc
    ensures alloc.Valid() && (ret == Ok || ret == BadAlloc)
    ensures ret == Ok <==> array_ != null
    ensures ret == BadAlloc ==> alloc.live == rest
    ensures alloc.NoFailure(old(alloc.calls), alloc.calls) ==> ret == Ok
    ensures ret == Ok ==> fresh(array_) && fresh(array_.data) && alloc.live == rest + array_.Owned()
    ensures ret == Ok ==> array_.Filled(array_.size) && Texts(array_.data[..array_.size]) == Tokens(str, d, 0)
  {
    array_ := null;
    if |str| == 0 {
      array_ := new StringArray(0, None);
      NoTokenBlocks(array_.data[..]);
      return Ok, array_;
    }
    var lhsOffset := if str[0] == d then 1 else 0;
    var rhsOffset := if str[|str| - 1] == d then 1 else 0;
    var end := |str| - rhsOffset;
    var arraySize := CountSlots(str, d, lhsOffset, end);
    var block := alloc.Allocate();
    if block.None? {
      return BadAlloc, null;
    }
    array_ := new StringArray(arraySize, block);
    SplittingStarts(str, d, end, array_, lhsOffset);
    ret := Fill(str, d, end, lhsOffset, array_, alloc, rest);
    if ret != Ok {
      array_ := null;
    }
  }

  lemma SplittingStarts(str: string, d: char, end: nat, array_: StringArray, start: nat)
    requires 0 < |str| && end <= |str| && start == (if str[0] == d then 1 else 0) && array_.Filled(0)
    requires array_.size == array_.data.Length == 1 + Delimiters(str, d, start, end)
    ensures Splitting(str, d, end, array_, 0, start, start) && array_.Owned() == Blocks(array_.block)
  {
    NoTokenBlocks(array_.data[..]);
    assert Texts(array_.data[..0]) == [];
  }

  /** Both loops' work, with the `fail` label. */
  method Fill(str: string, d: char, end: nat, start: nat, array_: StringArray, alloc: Allocator,
              ghost rest: multiset<Block>)
    returns (ret: Ret)
    requires Splitting(str, d, end, array_, 0, start, start) && start <= 1 <= |str|
    requires end == |str| || (end == |str| - 1 && str[end] == d)
    requires alloc.Valid() && alloc.live == rest + array_.Owned()
    modifies array_, array_.data, alloc
    ensures alloc.Valid() && (ret == Ok || ret == BadAlloc)
    ensures alloc.NoFailure(old(alloc.calls), alloc.calls) ==> ret == Ok
    ensures ret == BadAlloc ==> alloc.live == rest
    ensures ret == Ok ==> alloc.live == rest + array_.Owned()
    ensures ret == Ok ==> array_.Filled(array_.size) && Texts(array_.data[..array_.size]) == Tokens(str, d, 0)
  {
    hide StringArray.Owned, Texts, Tokens, AllSome;
    var ok, n, lhs, rhs := SplitLoop(str, d, end, start, array_, alloc, rest);
    if ok {
      ok := LastToken(str, d, end, array_, n, lhs, rhs, alloc, rest);
    }
    if !ok {
      array_.Fini(n, alloc, rest);
    }
    ret := if ok then Ok else BadAlloc;
  }
}
