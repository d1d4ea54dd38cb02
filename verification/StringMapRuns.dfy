/** Whole runs of the string map: any sequence of calls, under any pattern of allocation failures,
    acts on a plain finite map.
 */
module StringMapRuns {
  import opened Wrappers
  import opened Allocation
  import opened Slots
  import opened StringMaps

  /** `Grow(n)` reserves `n` slots more than there are; `CopyIn` copies from one fixed other map. */
  datatype Op =
    | Set(key: string, value: string)
    | SetNoResize(key: string, value: string)
    | Unset(key: string)
    | Get(key: string)
    | KeyExists(key: string)
    | Clear
    | Grow(more: nat)
    | CopyIn

  datatype Reply = Returned(ret: Ret) | Value(value: Option<string>) | Answer(yes: bool)

  /** One call on a finite map, `other` being the slots of the other map.  Of the calls that fail, only
      a copy changes something: the pairs before the one that failed are copied. */
  ghost predicate Acts(other: seq<Slot>, before: map<string, string>, op: Op, reply: Reply, after: map<string, string>)
    requires WellFormed(other)
  {
    match op
    case Set(key, value) =>
      || (reply == Returned(Ok) && after == before[key := value])
      || (reply == Returned(BadAlloc) && after == before)
    case SetNoResize(key, value) =>
      || (reply == Returned(Ok) && after == before[key := value])
      || ((reply == Returned(BadAlloc) || (reply == Returned(NotEnoughSpace) && key !in before)) && after == before)
    case Unset(key) => reply == Returned(if key in before then Ok else KeyNotFound) && after == before - {key}
    case Get(key) => reply == Value(if key in before then Some(before[key]) else None) && after == before
    case KeyExists(key) => reply == Answer(key in before) && after == before
    case Clear => reply == Returned(Ok) && after == map[]
    case Grow(_) => (reply == Returned(Ok) || reply == Returned(BadAlloc)) && after == before
    case CopyIn =>
      || (reply == Returned(Ok) && after == before + Pairs(other))
      || (reply == Returned(BadAlloc) && exists n: nat :: n <= |other| && after == before + Before(other, n))
  }

  ghost predicate IsRun(other: seq<Slot>, ops: seq<Op>, replies: seq<Reply>, states: seq<map<string, string>>)
    requires WellFormed(other)
  {
    && |replies| == |ops| && |states| == |ops| + 1
    && forall i :: 0 <= i < |ops| ==> Acts(other, states[i], ops[i], replies[i], states[i + 1])
  }

  /** A run in which no request fails is known from the pairs that it starts with and from the calls that
      find no free slot. */
  lemma {:induction false} RunsAgree(
    other: seq<Slot>, ops: seq<Op>, replies: seq<Reply>, states: seq<map<string, string>>,
    replies': seq<Reply>, states': seq<map<string, string>>, n: nat)
    requires WellFormed(other) && n <= |ops|
    requires IsRun(other, ops, replies, states) && IsRun(other, ops, replies', states')
    requires states[0] == states'[0]
    requires forall i :: 0 <= i < n ==> replies[i] != Returned(BadAlloc) && replies'[i] != Returned(BadAlloc)
    requires forall i :: 0 <= i < n ==>
                           (replies[i] == Returned(NotEnoughSpace) <==> replies'[i] == Returned(NotEnoughSpace))
    ensures replies[..n] == replies'[..n] && states[n] == states'[n]
  {
    if n > 0 {
      RunsAgree(other, ops, replies, states, replies', states', n - 1);
      hide Pairs, Before, WellFormed;
      assert Acts(other, states[n - 1], ops[n - 1], replies[n - 1], states[n]);
      assert Acts(other, states'[n - 1], ops[n - 1], replies'[n - 1], states'[n]);
      assert replies[..n] == replies[..n - 1] + [replies[n - 1]];
      assert replies'[..n] == replies'[..n - 1] + [replies'[n - 1]];
    }
  }

  method Call(m: StringMap, op: Op, src: StringMap, ghost rest: multiset<Block>) returns (reply: Reply)
    requires m.Valid() && m.alloc.Valid() && m.alloc.live == rest + m.Owned()
    requires src.Valid() && src != m && src.pairs != m.pairs
    modifies m, m.pairs, m.alloc
    ensures m.Valid() && m.alloc.Valid() && m.alloc.live == rest + m.Owned() && m.alloc.calls >= old(m.alloc.calls)
    ensures m.pairs == old(m.pairs) || fresh(m.pairs)
    ensures Acts(src.pairs[..], old(m.Contents()), op, reply, m.Contents())
    ensures m.alloc.NoFailure(old(m.alloc.calls), m.alloc.calls) ==> reply != Returned(BadAlloc)
  {
    hide StringMap.Owned, Count, Pairs, WellFormed, SlotsBlocks, Before, Blocks, Resized, Lost, NothingLost;
    hide Allocator.NoFailure;
    match op {
      case Set(key, value) =>
        var ret := m.Set(key, value, rest);
        reply := Returned(ret);
      case SetNoResize(key, value) =>
        var ret := m.SetNoResize(key, value, rest);
        reply := Returned(ret);
      case Unset(key) =>
        var ret := m.Unset(key, rest);
        reply := Returned(ret);
      case Get(key) =>
        var value := m.Get(key);
        reply := Value(value);
      case KeyExists(key) =>
        var yes := m.KeyExists(key);
        reply := Answer(yes);
      case Clear =>
        m.Clear(rest);
        reply := Returned(Ok);
      case Grow(more) =>
        SizeIsBelow(m.pairs[..]);
        var ret := m.Reserve(m.pairs.Length + more, rest);
        reply := Returned(ret);
      case CopyIn =>
        ghost var copied;
        var ret;
        ret, copied := Copy(src, m, rest);
        reply := Returned(ret);
    }
  }

  method RunCalls(m: StringMap, ops: seq<Op>, src: StringMap, ghost rest: multiset<Block>)
    returns (replies: seq<Reply>, ghost states: seq<map<string, string>>)
    requires m.Valid() && m.alloc.Valid() && m.alloc.live == rest + m.Owned()
    requires src.Valid() && src != m && src.pairs != m.pairs
    modifies m, m.pairs, m.alloc
    ensures m.Valid() && m.alloc.Valid() && m.alloc.live == rest + m.Owned() && m.alloc.calls >= old(m.alloc.calls)
    ensures m.pairs == old(m.pairs) || fresh(m.pairs)
    ensures IsRun(src.pairs[..], ops, replies, states)
    ensures states[0] == old(m.Contents()) && states[|ops|] == m.Contents()
    ensures m.alloc.NoFailure(old(m.alloc.calls), m.alloc.calls) ==> Returned(BadAlloc) !in replies
  {
    hide StringMap.Owned, StringMap.Contents, Acts, Count, WellFormed;
    replies, states := [], [m.Contents()];
    ghost var other := src.pairs[..];
    for i := 0 to |ops|
      invariant m.Valid() && m.alloc.Valid() && m.alloc.live == rest + m.Owned() && m.alloc.calls >= old(m.alloc.calls)
      invariant m.pairs == old(m.pairs) || fresh(m.pairs)
      invariant src.Valid() && src.pairs != m.pairs && src.pairs[..] == other
      invariant |replies| == i && |states| == i + 1 && states[0] == old(m.Contents()) && states[i] == m.Contents()
      invariant forall j :: 0 <= j < i ==> Acts(other, states[j], ops[j], replies[j], states[j + 1])
      invariant m.alloc.NoFailure(old(m.alloc.calls), m.alloc.calls) ==> Returned(BadAlloc) !in replies
    {
      var reply := Call(m, ops[i], src, rest);
      replies, states := replies + [reply], states + [m.Contents()];
    }
  }

  /** From `init` through any calls to `fini`: the replies are those of a finite map that starts
      empty, and afterwards exactly the blocks of before are live. */
  method WholeLife(initialCapacity: nat, ops: seq<Op>, src: StringMap, alloc: Allocator)
    returns (ret: Ret, replies: seq<Reply>, ghost states: seq<map<string, string>>)
    requires alloc.Valid() && src.Valid()
    modifies alloc
    ensures alloc.Valid() && alloc.live == old(alloc.live) && src.Valid()
    ensures ret == Ok || (ret == BadAlloc && replies == [])
    ensures ret == Ok ==> IsRun(src.pairs[..], ops, replies, states) && states[0] == map[]
    ensures alloc.NoFailure(old(alloc.calls), alloc.calls) ==> ret == Ok && Returned(BadAlloc) !in replies
  {
    hide StringMap.Owned, StringMap.Contents, IsRun, Acts, Allocator.Valid, Count, WellFormed;
    replies, states := [], [];
    var m: StringMap?;
    ret, m := InitMap(initialCapacity, alloc, alloc.live);
    if m == null {
      return;
    }
    replies, states := RunCalls(m, ops, src, old(alloc.live));
    ret := m.Fini(old(alloc.live));
  }
}
