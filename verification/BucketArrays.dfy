/** The bucket array of src/hash_map.c: insertion, release and the rehash into a larger array, over
    an allocator that may fail at any request.
 */
module BucketArrays {
  import opened Wrappers
  import opened Allocation
  import opened ArrayLists
  import opened Buckets
  import opened PowersOfTwo
  import opened GrowthCosts

  const BUCKET_INITIAL_CAP := 2

  // ----- the bucket array by itself

  ghost predicate ValidBuckets<K, V, I(!new)>(h: Hasher<K, I>, buckets: seq<Bucket<K, V>>) {
    && IsPow2(|buckets|)
    && (forall b :: 0 <= b < |buckets| ==> buckets[b].Valid())
    && Placed(h, buckets)
  }

  /** `hash_map_allocate_new_map`: one block for all buckets, none of them initialised. */
  method AllocateNewMap<K, V>(capacity: nat, alloc: Allocator)
    returns (block: Option<Block>, buckets: seq<Bucket<K, V>>)
    requires alloc.Valid()
    modifies alloc
    ensures alloc.Valid() && alloc.calls == old(alloc.calls) + 1
    ensures block.None? <==> alloc.fails(old(alloc.calls))
    ensures alloc.live == old(alloc.live) + Blocks(block)
    ensures block.Some? ==> buckets == seq(capacity, _ => Unused)
  {
    block := alloc.Allocate();
    buckets := if block.Some? then seq(capacity, _ => Unused) else [];
  }

  /** One of the requests for an insertion fails, when the first of them is request `c`. */
  predicate InsertFails<K, V>(fails: nat -> bool, c: nat, bucket: Bucket<K, V>) {
    if bucket.Unused? then fails(c) || fails(c + 1)
    else |bucket.list.items| == bucket.list.capacity && fails(c)
  }

  /** Adding a new entry to a bucket fails: the entry, its key, its value or the insertion. */
  predicate EntryFails<K, V>(fails: nat -> bool, c: nat, bucket: Bucket<K, V>) {
    fails(c) || fails(c + 1) || fails(c + 2) || InsertFails(fails, c + 3, bucket)
  }

  /** `hash_map_insert_entry`: initialise the bucket when it has no list yet, then append. */
  method InsertEntry<K, V>(buckets: seq<Bucket<K, V>>, b: nat, e: Entry<K, V>, alloc: Allocator,
                           ghost rest: multiset<Block>)
    returns (ret: Ret, buckets': seq<Bucket<K, V>>)
    requires b < |buckets| && buckets[b].Valid()
    requires alloc.Valid() && alloc.live == rest + ListBlocks(buckets)
    modifies alloc
    ensures alloc.Valid() && alloc.live == rest + ListBlocks(buckets') && alloc.calls >= old(alloc.calls)
    ensures ret == Ok || (ret == BadAlloc && buckets' == buckets)
    ensures ret == Ok ==> |buckets'| == |buckets| && buckets' == buckets[b := buckets'[b]]
    ensures ret == Ok ==> buckets'[b].Valid() && buckets'[b].Items() == buckets[b].Items() + [e]
    ensures ret == BadAlloc <==> InsertFails(alloc.fails, old(alloc.calls), buckets[b])
    ensures alloc.NoFailure(old(alloc.calls), alloc.calls) <==> ret == Ok
    ensures alloc.calls <= old(alloc.calls) + InsertCalls(buckets[b])
    ensures ret == Ok ==> alloc.calls == old(alloc.calls) + InsertCalls(buckets[b]) && Takes(buckets[b], buckets'[b])
  {
    hide ListState.Owned;
    buckets' := buckets;
    ListBlocksSplit(buckets, b);
    var list: ListState<Entry<K, V>>;
    if buckets[b].Unused? {
      var fresh_;
      ret, fresh_ := InitList(BUCKET_INITIAL_CAP, alloc);
      if ret != Ok {
        return;
      }
      list := fresh_.value;
    } else {
      list := buckets[b].list;
    }
    ret, list := AddToList(list, e, alloc, rest + OtherLists(buckets, b));
    if ret == Ok {
      buckets' := buckets[b := Used(list)];
      ListBlocksUpdate(buckets, b, Used(list));
    }
  }

  /** `hash_map_deallocate_entry`: key, value and the entry itself; any of them may be NULL. */
  method DeallocateEntry(self: Block, key: Option<Block>, value: Option<Block>, alloc: Allocator,
                         ghost rest: multiset<Block>)
    requires alloc.Valid() && alloc.live == rest + multiset{self} + Blocks(key) + Blocks(value)
    modifies alloc`live
    ensures alloc.Valid() && alloc.live == rest
  {
    alloc.Deallocate(key, rest + multiset{self} + Blocks(value));
    alloc.Deallocate(value, rest + multiset{self});
    alloc.Deallocate(Some(self), rest);
  }

  /** The entries of one bucket, freed front to back. */
  method DeallocateItems<K, V>(items: seq<Entry<K, V>>, alloc: Allocator, ghost rest: multiset<Block>)
    requires alloc.Valid() && alloc.live == rest + EntryBlocks(items)
    modifies alloc`live
    ensures alloc.Valid() && alloc.live == rest
  {
    hide EntryBlocks;
    NoEntries(items);
    for i := 0 to |items|
      invariant alloc.Valid() && alloc.live == rest + EntryBlocks(items[i..])
    {
      var e := items[i];
      EntryPeel(items, i);
      DeallocateEntry(e.self, Some(e.keyBlock), Some(e.valueBlock), alloc, rest + EntryBlocks(items[i + 1..]));
    }
    NoEntries(items);
  }

  lemma EntryPeel<K, V>(items: seq<Entry<K, V>>, i: nat)
    requires i < |items|
    ensures EntryBlocks(items[i..]) ==
            EntryBlocks(items[i + 1..]) + multiset{items[i].self} + multiset{items[i].keyBlock} +
            multiset{items[i].valueBlock}
  {
    assert items[i..] == [items[i]] + items[i + 1..];
    EntryBlocksConcat([items[i]], items[i + 1..]);
    EntryBlocksOne(items[i]);
  }

  lemma NoEntries<K, V>(items: seq<Entry<K, V>>)
    ensures items[0..] == items && EntryBlocks(items[|items|..]) == multiset{}
  {
  }

  ghost function EntriesIf<K, V>(entriesToo: bool, buckets: seq<Bucket<K, V>>): multiset<Block> {
    if entriesToo then EntryBlocks(Flat(buckets)) else multiset{}
  }

  /** `hash_map_deallocate_map`: every list, the entries too if asked, and the bucket array. */
  method DeallocateMap<K, V>(
    buckets: seq<Bucket<K, V>>, block: Block, entriesToo: bool, alloc: Allocator, ghost rest: multiset<Block>)
    requires alloc.Valid()
    requires alloc.live == rest + multiset{block} + ListBlocks(buckets) + EntriesIf(entriesToo, buckets)
    modifies alloc`live
    ensures alloc.Valid() && alloc.live == rest
  {
    hide Bucket.Owned, ListBlocks, EntriesIf, EntryBlocks;
    for b := 0 to |buckets|
      invariant alloc.Valid()
      invariant alloc.live == rest + multiset{block} + ListBlocks(buckets[b..]) + EntriesIf(entriesToo, buckets[b..])
    {
      BucketPeel(buckets, b, entriesToo);
      ghost var later := rest + multiset{block} + ListBlocks(buckets[b + 1..])
      + EntriesIf(entriesToo, buckets[b + 1..]);
      DeallocateBucket(buckets[b], entriesToo, alloc, later);
    }
    NothingLeft<K, V>(entriesToo);
    assert buckets[|buckets|..] == [];
    alloc.Deallocate(Some(block), rest);
  }

  method DeallocateBucket<K, V>(bucket: Bucket<K, V>, entriesToo: bool, alloc: Allocator, ghost rest: multiset<Block>)
    requires alloc.Valid()
    requires alloc.live == rest + bucket.Owned() + (if entriesToo then EntryBlocks(bucket.Items()) else multiset{})
    requires bucket.Unused? ==> EntryBlocks(bucket.Items()) == multiset{}
    modifies alloc`live
    ensures alloc.Valid() && alloc.live == rest
  {
    hide ListState.Owned, EntryBlocks;
    if bucket.Used? {
      if entriesToo {
        DeallocateItems(bucket.list.items, alloc, rest + bucket.list.Owned());
      }
      FiniList(bucket.list, alloc, rest);
    }
  }

  lemma BucketPeel<K, V>(buckets: seq<Bucket<K, V>>, b: nat, entriesToo: bool)
    requires b < |buckets|
    ensures ListBlocks(buckets[b..]) == buckets[b].Owned() + ListBlocks(buckets[b + 1..])
    ensures EntriesIf(entriesToo, buckets[b..]) ==
            (if entriesToo then EntryBlocks(buckets[b].Items()) else multiset{})
            + EntriesIf(entriesToo, buckets[b + 1..])
    ensures buckets[b].Unused? ==> EntryBlocks(buckets[b].Items()) == multiset{}
  {
    assert buckets[b..][1..] == buckets[b + 1..];
    EntryBlocksConcat(buckets[b].Items(), Flat(buckets[b + 1..]));
  }

  lemma NothingLeft<K, V>(entriesToo: bool)
    ensures ListBlocks<K, V>([]) == multiset{} && EntriesIf<K, V>(entriesToo, []) == multiset{}
  {
  }

  // ----- growth

  /** What the rehash loop keeps: `fresh_` lists exactly the entries moved so far, well placed. */
  ghost predicate Rehashed<K, V, I(!new)>(
    h: Hasher<K, I>, moved: seq<Entry<K, V>>, fresh_: seq<Bucket<K, V>>, m: map<I, Entry<K, V>>)
  {
    && ValidBuckets(h, fresh_)
    && Lists(h, moved, m) && Lists(h, Flat(fresh_), m)
    && EntryBlocks(Flat(fresh_)) == EntryBlocks(moved)
  }

  lemma {:induction false} UnusedIsEmpty<K, V>(n: nat)
    ensures Flat(seq<Bucket<K, V>>(n, _ => Unused)) == [] && ListBlocks(seq<Bucket<K, V>>(n, _ => Unused)) == multiset{}
  {
    if n > 0 {
      UnusedIsEmpty<K, V>(n - 1);
      assert seq<Bucket<K, V>>(n, _ => Unused)[1..] == seq<Bucket<K, V>>(n - 1, _ => Unused);
    }
  }

  lemma RehashStart<K, V, I(!new)>(h: Hasher<K, I>, capacity: nat)
    requires IsPow2(capacity)
    ensures Rehashed(h, [], seq<Bucket<K, V>>(capacity, _ => Unused), map[])
  {
    UnusedIsEmpty<K, V>(capacity);
  }

  /** Appending one more entry to the bucket that its hash selects. */
  lemma RehashStep<K, V, I(!new)>(
    h: Hasher<K, I>, moved: seq<Entry<K, V>>, fresh_: seq<Bucket<K, V>>, m: map<I, Entry<K, V>>,
    e: Entry<K, V>, x: Bucket<K, V>)
    requires Rehashed(h, moved, fresh_, m) && h.Id(e) !in m && e.hash == h.hash(h.Id(e))
    requires 0 < |fresh_| && x.Valid() && x.Items() == fresh_[e.hash % |fresh_|].Items() + [e]
    ensures Rehashed(h, moved + [e], fresh_[e.hash % |fresh_| := x], m[h.Id(e) := e])
  {
    var b := e.hash % |fresh_|;
    AppendPlaced(h, fresh_, e, x);
    AppendFlat(fresh_, b, e, x);
    var pre, post := Flat(fresh_[..b]) + fresh_[b].Items(), Flat(fresh_[b + 1..]);
    hide ValidBuckets, Lists, EntryBlocks, Flat, Bucket.Items;
    ListsSnoc(h, moved, m, e);
    ListsInsert(h, pre, post, m, e);
    EntryBlocksConcat(moved, [e]);
    EntryBlocksInsert(pre, post, e);
  }

  lemma ListsSnoc<K, V, I(!new)>(h: Hasher<K, I>, items: seq<Entry<K, V>>, m: map<I, Entry<K, V>>, e: Entry<K, V>)
    requires Lists(h, items, m) && h.Id(e) !in m
    ensures Lists(h, items + [e], m[h.Id(e) := e])
  {
    hide Lists;
    assert items + [e] + [] == items + [e] && items + [] == items;
    ListsInsert(h, items, [], m, e);
  }

  lemma AppendPlaced<K, V, I(!new)>(h: Hasher<K, I>, buckets: seq<Bucket<K, V>>, e: Entry<K, V>, x: Bucket<K, V>)
    requires ValidBuckets(h, buckets) && e.hash == h.hash(h.Id(e))
    requires 0 < |buckets| && x.Valid() && x.Items() == buckets[e.hash % |buckets|].Items() + [e]
    ensures ValidBuckets(h, buckets[e.hash % |buckets| := x])
  {
    var b := e.hash % |buckets|;
    var after := buckets[b := x];
    forall c, i | 0 <= c < |after| && 0 <= i < |after[c].Items()|
      ensures PlacedAt(h, after[c].Items()[i], |after|, c)
    {
      assert c != b || i < |buckets[b].Items()| ==> PlacedAt(h, buckets[c].Items()[i], |buckets|, c);
    }
  }

  lemma AppendFlat<K, V>(buckets: seq<Bucket<K, V>>, b: nat, e: Entry<K, V>, x: Bucket<K, V>)
    requires b < |buckets| && x.Items() == buckets[b].Items() + [e]
    ensures Flat(buckets) == Flat(buckets[..b]) + buckets[b].Items() + Flat(buckets[b + 1..])
    ensures Flat(buckets[b := x]) == Flat(buckets[..b]) + buckets[b].Items() + [e] + Flat(buckets[b + 1..])
  {
    FlatSplit(buckets, b);
    FlatUpdate(buckets, b, x);
    assert Flat(buckets[..b]) + (buckets[b].Items() + [e]) == Flat(buckets[..b]) + buckets[b].Items() + [e];
  }

  lemma EntryBlocksInsert<K, V>(pre: seq<Entry<K, V>>, post: seq<Entry<K, V>>, e: Entry<K, V>)
    ensures EntryBlocks(pre + [e] + post) == EntryBlocks(pre + post) + EntryBlocks([e])
  {
    SumInsert(x => OwnBlocks(x), pre, post, e);
    EntryBlocksOne(e);
  }

  /** The entry the loops have reached is not among those already moved. */
  lemma NextToMove<K, V, I(!new)>(
    h: Hasher<K, I>, buckets: seq<Bucket<K, V>>, m: map<I, Entry<K, V>>, b: nat, i: nat, done: map<I, Entry<K, V>>)
    requires ValidBuckets(h, buckets) && Lists(h, Flat(buckets), m)
    requires b < |buckets| && i < |buckets[b].Items()|
    requires Lists(h, Flat(buckets[..b]) + buckets[b].Items()[..i], done)
    ensures var e := buckets[b].Items()[i]; h.Id(e) !in done && e.hash == h.hash(h.Id(e))
  {
    assert PlacedAt(h, buckets[b].Items()[i], |buckets|, b);
    MovedBefore(buckets, b, i);
    hide *;
    hide Lists;
    NotYetListed(h, Flat(buckets), |Flat(buckets[..b]) + buckets[b].Items()[..i]|, m, done);
  }

  lemma MovedBefore<K, V>(buckets: seq<Bucket<K, V>>, b: nat, i: nat)
    requires b < |buckets| && i < |buckets[b].Items()|
    ensures var n := |Flat(buckets[..b]) + buckets[b].Items()[..i]|;
            && n < |Flat(buckets)| && Flat(buckets)[n] == buckets[b].Items()[i]
            && Flat(buckets)[..n] == Flat(buckets[..b]) + buckets[b].Items()[..i]
  {
    FlatSplit(buckets, b);
  }

  lemma NotYetListed<K, V, I(!new)>(
    h: Hasher<K, I>, all: seq<Entry<K, V>>, n: nat, m: map<I, Entry<K, V>>, done: map<I, Entry<K, V>>)
    requires n < |all| && Lists(h, all, m) && Lists(h, all[..n], done)
    ensures h.Id(all[n]) !in done
  {
    assert forall j :: 0 <= j < n ==> all[..n][j] == all[j] && h.Id(all[j]) != h.Id(all[n]);
  }

  lemma MoveOne<K, V>(buckets: seq<Bucket<K, V>>, b: nat, i: nat)
    requires b < |buckets| && i < |buckets[b].Items()|
    ensures Flat(buckets[..b]) + buckets[b].Items()[..i] + [buckets[b].Items()[i]] ==
            Flat(buckets[..b]) + buckets[b].Items()[..i + 1]
  {
  }

  /** The state of the two rehash loops at entry `i` of bucket `b`. */
  ghost predicate RehashedTo<K, V, I(!new)>(
    h: Hasher<K, I>, buckets: seq<Bucket<K, V>>, b: nat, i: nat, fresh_: seq<Bucket<K, V>>, done: map<I, Entry<K, V>>)
    requires b < |buckets| && i <= |buckets[b].Items()|
  {
    Rehashed(h, Flat(buckets[..b]) + buckets[b].Items()[..i], fresh_, done)
  }

  lemma RehashOne<K, V, I(!new)>(
    h: Hasher<K, I>, buckets: seq<Bucket<K, V>>, m: map<I, Entry<K, V>>, b: nat, i: nat,
    fresh_: seq<Bucket<K, V>>, done: map<I, Entry<K, V>>, x: Bucket<K, V>)
    requires ValidBuckets(h, buckets) && Lists(h, Flat(buckets), m)
    requires b < |buckets| && i < |buckets[b].Items()|
    requires RehashedTo(h, buckets, b, i, fresh_, done) && 0 < |fresh_| && x.Valid()
    requires var e := buckets[b].Items()[i]; x.Items() == fresh_[e.hash % |fresh_|].Items() + [e]
    ensures var e := buckets[b].Items()[i];
            RehashedTo(h, buckets, b, i + 1, fresh_[e.hash % |fresh_| := x], done[h.Id(e) := e])
  {
    NextToMove(h, buckets, m, b, i, done);
    RehashStep(h, Flat(buckets[..b]) + buckets[b].Items()[..i], fresh_, done, buckets[b].Items()[i], x);
    MoveOne(buckets, b, i);
  }

  lemma RehashBucket<K, V, I(!new)>(
    h: Hasher<K, I>, buckets: seq<Bucket<K, V>>, b: nat, fresh_: seq<Bucket<K, V>>, done: map<I, Entry<K, V>>)
    requires b < |buckets|
    ensures RehashedTo(h, buckets, b, 0, fresh_, done) == Rehashed(h, Flat(buckets[..b]), fresh_, done)
    ensures RehashedTo(h, buckets, b, |buckets[b].Items()|, fresh_, done) ==
            Rehashed(h, Flat(buckets[..b + 1]), fresh_, done)
  {
    hide Rehashed, Flat, Bucket.Items;
    BucketMoved(buckets, b);
  }

  lemma RehashEnd<K, V, I(!new)>(
    h: Hasher<K, I>, buckets: seq<Bucket<K, V>>, m: map<I, Entry<K, V>>, fresh_: seq<Bucket<K, V>>,
    done: map<I, Entry<K, V>>)
    requires Rehashed(h, Flat(buckets[..|buckets|]), fresh_, done) && Lists(h, Flat(buckets), m)
    ensures Rehashed(h, Flat(buckets), fresh_, m)
  {
    assert buckets[..|buckets|] == buckets;
    ListsUnique(h, Flat(buckets), m, done);
  }

  /** The body of the rehash loops: entry `i` of bucket `b` is inserted into the larger array. */
  method MoveEntry<K, V, I(!new)>(
    h: Hasher<K, I>, buckets: seq<Bucket<K, V>>, b: nat, i: nat, fresh_: seq<Bucket<K, V>>, alloc: Allocator,
    ghost m: map<I, Entry<K, V>>, ghost done: map<I, Entry<K, V>>, ghost moved: seq<Entry<K, V>>, ghost spent: nat,
    ghost rest: multiset<Block>)
    returns (ret: Ret, after: seq<Bucket<K, V>>, ghost done': map<I, Entry<K, V>>, ghost spent': nat)
    requires ValidBuckets(h, buckets) && Lists(h, Flat(buckets), m) && b < |buckets| && i < |buckets[b].Items()|
    requires RehashedTo(h, buckets, b, i, fresh_, done)
    requires moved == Flat(buckets[..b]) + buckets[b].Items()[..i] && Paid(fresh_, moved, spent) && 0 < |fresh_|
    requires alloc.Valid() && alloc.live == rest + ListBlocks(fresh_)
    modifies alloc
    ensures alloc.Valid() && alloc.live == rest + ListBlocks(after) && |after| == |fresh_|
    ensures ret == Ok || ret == BadAlloc
    ensures old(alloc.calls) <= alloc.calls && (alloc.NoFailure(old(alloc.calls), alloc.calls) <==> ret == Ok)
    ensures alloc.calls - old(alloc.calls) + spent <= FillCalls(Hashes(Flat(buckets)), |fresh_|)
    ensures ret == Ok ==> alloc.calls - old(alloc.calls) == spent' - spent
    ensures ret == Ok ==> RehashedTo(h, buckets, b, i + 1, after, done')
    ensures ret == Ok ==> Paid(after, moved + [buckets[b].Items()[i]], spent')
  {
    hide ListBlocks, Lists, EntryBlocks, RehashedTo, Rehashed, Paid, Takes, FillCalls;
    hide InsertCalls, InsertFails, Flat, Hashes, Allocator.NoFailure;
    var e := buckets[b].Items()[i];
    RehashedReady(h, buckets, b, i, fresh_, done);
    PaidUpTo(buckets, b, i, fresh_, moved, spent);
    done', spent' := done, spent;
    ret, after := InsertEntry(fresh_, e.hash % |fresh_|, e, alloc, rest);
    if ret == Ok {
      var x := after[e.hash % |fresh_|];
      PaidOneMore(fresh_, moved, spent, e, x);
      RehashOne(h, buckets, m, b, i, fresh_, done, x);
      done', spent' := done[h.Id(e) := e], spent + InsertCalls(fresh_[e.hash % |fresh_|]);
    }
  }

  /** The rehash loops of `hash_map_check_and_grow_map`: on success `fresh_` lists the same entries
      as `buckets`; on failure the caller still owns the half-filled array. */
  method Rehash<K, V, I(!new)>(
    h: Hasher<K, I>, buckets: seq<Bucket<K, V>>, empty: seq<Bucket<K, V>>, alloc: Allocator,
    ghost m: map<I, Entry<K, V>>, ghost rest: multiset<Block>)
    returns (ret: Ret, fresh_: seq<Bucket<K, V>>)
    requires ValidBuckets(h, buckets) && Lists(h, Flat(buckets), m)
    requires Rehashed(h, [], empty, map[]) && FilledBy(empty, []) && 0 < |empty|
    requires alloc.Valid() && alloc.live == rest + ListBlocks(empty)
    modifies alloc
    ensures alloc.Valid() && alloc.live == rest + ListBlocks(fresh_) && alloc.calls >= old(alloc.calls)
    ensures |fresh_| == |empty|
    ensures ret == Ok || ret == BadAlloc
    ensures alloc.NoFailure(old(alloc.calls), alloc.calls) <==> ret == Ok
    ensures alloc.calls <= old(alloc.calls) + FillCalls(Hashes(Flat(buckets)), |empty|)
    ensures ret == Ok ==> alloc.calls == old(alloc.calls) + FillCalls(Hashes(Flat(buckets)), |empty|)
    ensures ret == Ok ==> Rehashed(h, Flat(buckets), fresh_, m)
  {
    hide ListBlocks, Lists, EntryBlocks, RehashedTo, Rehashed, Paid, FillCalls, Flat, Hashes, FilledBy;
    hide Allocator.NoFailure;
    NothingFailed(alloc, alloc.calls);
    ret, fresh_ := Ok, empty;
    ghost var done: map<I, Entry<K, V>> := map[];
    ghost var moved: seq<Entry<K, V>>, spent: nat := [], 0;
    NothingMoved(buckets, empty);
    for b := 0 to |buckets|
      invariant alloc.Valid() && alloc.live == rest + ListBlocks(fresh_) && alloc.calls >= old(alloc.calls)
      invariant alloc.NoFailure(old(alloc.calls), alloc.calls)
      invariant ret == Ok && |fresh_| == |empty| && Rehashed(h, Flat(buckets[..b]), fresh_, done)
      invariant moved == Flat(buckets[..b]) && Paid(fresh_, moved, spent) && alloc.calls == old(alloc.calls) + spent
    {
      RehashBucket(h, buckets, b, fresh_, done);
      BucketMoved(buckets, b);
      for i := 0 to |buckets[b].Items()|
        invariant alloc.Valid() && alloc.live == rest + ListBlocks(fresh_) && alloc.calls >= old(alloc.calls)
        invariant alloc.NoFailure(old(alloc.calls), alloc.calls)
        invariant ret == Ok && |fresh_| == |empty| && RehashedTo(h, buckets, b, i, fresh_, done)
        invariant moved == Flat(buckets[..b]) + buckets[b].Items()[..i]
        invariant Paid(fresh_, moved, spent) && alloc.calls == old(alloc.calls) + spent
      {
        ghost var before := spent;
        ret, fresh_, done, spent := MoveEntry(h, buckets, b, i, fresh_, alloc, m, done, moved, spent, rest);
        if ret != Ok {
          FailedLater(alloc, old(alloc.calls), old(alloc.calls) + before, alloc.calls);
          return;
        }
        NothingFailedYet(alloc, old(alloc.calls), old(alloc.calls) + before, alloc.calls);
        MoveOne(buckets, b, i);
        moved := moved + [buckets[b].Items()[i]];
      }
      RehashBucket(h, buckets, b, fresh_, done);
      BucketMoved(buckets, b);
    }
    RehashEnd(h, buckets, m, fresh_, done);
    AllMoved(buckets, fresh_, spent);
  }

  lemma BucketMoved<K, V>(buckets: seq<Bucket<K, V>>, b: nat)
    requires b < |buckets|
    ensures Flat(buckets[..b]) + buckets[b].Items()[..0] == Flat(buckets[..b])
    ensures Flat(buckets[..b]) + buckets[b].Items()[..|buckets[b].Items()|] == Flat(buckets[..b + 1])
  {
    FlatPrefix(buckets, b);
    hide Flat, Bucket.Items;
    assert buckets[b].Items()[..|buckets[b].Items()|] == buckets[b].Items();
  }

  lemma NothingMoved<K, V>(buckets: seq<Bucket<K, V>>, empty: seq<Bucket<K, V>>)
    requires FilledBy(empty, [])
    ensures Flat(buckets[..0]) == [] && Paid(empty, [], 0)
  {
    assert Hashes<K, V>([]) == [];
  }

  lemma AllMoved<K, V>(buckets: seq<Bucket<K, V>>, fresh_: seq<Bucket<K, V>>, spent: nat)
    requires Paid(fresh_, Flat(buckets[..|buckets|]), spent) && 0 < |fresh_|
    ensures spent == FillCalls(Hashes(Flat(buckets)), |fresh_|)
  {
    assert buckets[..|buckets|] == buckets;
  }

  /** The next entry included, no more has been paid than the whole listing costs. */
  lemma PaidUpTo<K, V>(
    buckets: seq<Bucket<K, V>>, b: nat, i: nat, fresh_: seq<Bucket<K, V>>, moved: seq<Entry<K, V>>, spent: nat)
    requires b < |buckets| && i < |buckets[b].Items()| && moved == Flat(buckets[..b]) + buckets[b].Items()[..i]
    requires Paid(fresh_, moved, spent) && 0 < |fresh_|
    ensures var e := buckets[b].Items()[i];
            spent + InsertCalls(fresh_[e.hash % |fresh_|]) <= FillCalls(Hashes(Flat(buckets)), |fresh_|)
  {
    var e := buckets[b].Items()[i];
    hide Flat, Bucket.Items, Landing, FillCalls, EntryCost, Hashes, InsertCalls, FilledBy;
    MovedBefore(buckets, b, i);
    OneFurther(Flat(buckets), moved, e);
    PaidPart(Flat(buckets), |moved| + 1, |fresh_|);
    HashesSnoc(moved, e);
    FillSnoc(Hashes(moved), e.hash, |fresh_|);
    CostIs(fresh_, Hashes(moved), e.hash);
  }

  lemma OneFurther<E>(all: seq<E>, moved: seq<E>, e: E)
    requires |moved| < |all| && all[..|moved|] == moved && all[|moved|] == e
    ensures all[..|moved| + 1] == moved + [e]
  {
  }

  lemma CostIs<K, V>(buckets: seq<Bucket<K, V>>, hashes: seq<nat>, h: nat)
    requires FilledBy(buckets, hashes) && 0 < |buckets|
    ensures InsertCalls(buckets[h % |buckets|]) == EntryCost(Landing(hashes, |buckets|, h % |buckets|))
  {
    hide Landing;
    var k := Landing(hashes, |buckets|, h % |buckets|);
    if k > 0 {
      FullAtPowers(k);
    }
  }

  lemma RehashedReady<K, V, I(!new)>(
    h: Hasher<K, I>, buckets: seq<Bucket<K, V>>, b: nat, i: nat, fresh_: seq<Bucket<K, V>>, done: map<I, Entry<K, V>>)
    requires b < |buckets| && i <= |buckets[b].Items()| && RehashedTo(h, buckets, b, i, fresh_, done)
    ensures 0 < |fresh_| && forall c :: 0 <= c < |fresh_| ==> fresh_[c].Valid()
  {
  }
}
