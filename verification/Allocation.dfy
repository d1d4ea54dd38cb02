/** The user-supplied allocator as an oracle, with a ledger of the blocks it has handed out.

    Request number `n` fails exactly when `fails(n)`; the oracle is arbitrary, so every theorem
    proved against it holds for every pattern of allocation failures.  A successful request
    returns its own number as the address, so no address is ever handed out twice and a block
    that leaves `live` never comes back.
 */
module Allocation {
  import opened Wrappers

  type Block = nat

  class Allocator {
    const fails: nat -> bool
    var calls: nat
    ghost var live: multiset<Block>

    ghost predicate Valid()
      reads this
    {
      forall b :: live[b] <= 1 && (live[b] == 1 ==> b < calls)
    }

    /** No request failed between two points of the run. */
    ghost predicate NoFailure(first: nat, last: nat) {
      forall n :: first <= n < last ==> !fails(n)
    }

    constructor (fails: nat -> bool)
      ensures Valid() && this.fails == fails && calls == 0 && live == multiset{}
    {
      this.fails, calls, live := fails, 0, multiset{};
    }

    method Allocate() returns (block: Option<Block>)
      requires Valid()
      modifies this
      ensures Valid() && calls == old(calls) + 1
      ensures block.None? <==> fails(old(calls))
      ensures block.None? ==> live == old(live)
      ensures block.Some? ==> block.value !in old(live) && live == old(live) + multiset{block.value}
    {
      block := if fails(calls) then None else Some(calls);
      if block.Some? {
        live := live + multiset{block.value};
      }
      calls := calls + 1;
    }

    /** Freeing NULL does nothing; freeing anything else needs a block that is live now. */
    method Deallocate(block: Option<Block>, ghost rest: multiset<Block>)
      requires Valid() && live == rest + Blocks(block)
      modifies this`live
      ensures Valid() && live == rest
    {
      assert forall b :: live[b] == rest[b] + Blocks(block)[b];
      live := rest;
    }

    /** On failure the old block stays live, as C's `realloc` promises; on success it is gone. */
    method Reallocate(current: Option<Block>, ghost rest: multiset<Block>) returns (block: Option<Block>)
      requires Valid() && live == rest + Blocks(current)
      modifies this
      ensures Valid() && calls == old(calls) + 1
      ensures block.None? <==> fails(old(calls))
      ensures live == rest + Blocks(if block.Some? then block else current)
    {
      block := Allocate();
      if block.Some? {
        Deallocate(current, rest + Blocks(block));
      }
    }
  }

  lemma FailedAt(alloc: Allocator, a: nat, n: nat, b: nat)
    requires a <= n < b && alloc.fails(n)
    ensures !alloc.NoFailure(a, b)
  {
  }

  lemma NothingFailed(alloc: Allocator, a: nat)
    ensures alloc.NoFailure(a, a)
  {
  }

  lemma NothingFailedYet(alloc: Allocator, a: nat, b: nat, c: nat)
    requires a <= b <= c && alloc.NoFailure(a, b) && alloc.NoFailure(b, c)
    ensures alloc.NoFailure(a, c)
  {
  }

  lemma FailedBefore(alloc: Allocator, a: nat, b: nat, c: nat)
    requires b <= c
    ensures !alloc.NoFailure(a, b) ==> !alloc.NoFailure(a, c)
  {
  }

  lemma FailedLater(alloc: Allocator, a: nat, b: nat, c: nat)
    requires a <= b <= c
    ensures !alloc.NoFailure(b, c) ==> !alloc.NoFailure(a, c)
  {
  }

  /** The blocks behind a possibly NULL pointer. */
  ghost function Blocks(block: Option<Block>): multiset<Block> {
    if block.Some? then multiset{block.value} else multiset{}
  }

  // ----- the blocks behind a sequence of things

  ghost function Sum<T>(blocks: T -> multiset<Block>, s: seq<T>): multiset<Block> {
    if s == [] then multiset{} else blocks(s[0]) + Sum(blocks, s[1..])
  }

  lemma {:induction false} SumConcat<T>(blocks: T -> multiset<Block>, a: seq<T>, b: seq<T>)
    ensures Sum(blocks, a + b) == Sum(blocks, a) + Sum(blocks, b)
  {
    if a == [] {
      assert a + b == b;
    } else {
      SumConcat(blocks, a[1..], b);
      assert (a + b)[1..] == a[1..] + b;
    }
  }

  lemma SumOne<T>(blocks: T -> multiset<Block>, x: T)
    ensures Sum(blocks, [x]) == blocks(x)
  {
    assert [x][1..] == [];
  }

  lemma SumInsert<T>(f: T -> multiset<Block>, pre: seq<T>, post: seq<T>, x: T)
    ensures Sum(f, pre + [x] + post) == Sum(f, pre + post) + f(x)
  {
    hide Sum;
    SumConcat(f, pre + [x], post);
    SumConcat(f, pre, [x]);
    SumConcat(f, pre, post);
    SumOne(f, x);
  }

  lemma SplitAt<T>(s: seq<T>, j: nat)
    requires j < |s|
    ensures s == s[..j] + [s[j]] + s[j + 1..]
  {
  }

  lemma SumUpdate<T>(f: T -> multiset<Block>, s: seq<T>, j: nat, x: T)
    requires j < |s| && f(s[j]) == multiset{}
    ensures Sum(f, s[j := x]) == Sum(f, s) + f(x)
  {
    hide Sum;
    SplitAt(s, j);
    SplitAt(s[j := x], j);
    SameSides(s, j, x);
    SumInsert(f, s[..j], s[j + 1..], s[j]);
    SumInsert(f, s[..j], s[j + 1..], x);
  }

  lemma SameSides<T>(s: seq<T>, j: nat, x: T)
    requires j < |s|
    ensures s[j := x][..j] == s[..j] && s[j := x][j + 1..] == s[j + 1..]
  {
  }
}
