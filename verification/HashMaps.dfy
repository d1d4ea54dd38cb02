/** src/hash_map.c: a chained hash map whose capacity is a power of two.

    A handle whose `impl` is NULL is a null `HashMap?`.  `m` is the finite map the buckets stand
    for; `Owned` is every block the map is responsible for.  The ghost parameter `rest` of the
    methods is everything else that is live, which no call may touch.
 */
module HashMaps {
  import opened Numbers
  import opened Wrappers
  import opened Allocation
  import opened ArrayLists
  import opened Buckets
  import opened GrowthCosts
  import opened BucketArrays
  import opened PowersOfTwo

  /** The bucket has a list, and one more entry fits into it. */
  predicate RoomIn<K, V>(bucket: Bucket<K, V>) {
    bucket.Used? && |bucket.list.items| < bucket.list.capacity
  }

  /** What a `set` does about growing: the capacity to double, the first request for that, and how many
      there are when none fails. */
  datatype GrowthPlan = GrowthPlan(capacity: nat, stored: nat, cost: nat)

  class HashMap<K, V, I(!new, ==)> {
    const h: Hasher<K, I>
    const implBlock: Block
    var mapBlock: Block
    var buckets: seq<Bucket<K, V>>
    var size: nat
    ghost var m: map<I, Entry<K, V>>

    ghost predicate Valid()
      reads this
    {
      ValidBuckets(h, buckets) && Lists(h, Flat(buckets), m) && size == |m|
    }

    ghost function Owned(): multiset<Block>
      reads this
    {
      multiset{implBlock} + multiset{mapBlock} + ListBlocks(buckets) + EntryBlocks(Flat(buckets))
    }

    /** The entries in iteration order. */
    ghost function Listing(): seq<Entry<K, V>>
      reads this
    {
      Flat(buckets)
    }

    /** Below the load factor 0.75; exact in C too, the capacity being a power of two. */
    predicate BelowLoad()
      reads this
    {
      size < 3 * |buckets| / 4
    }

    /** The bucket that the hash of an identity selects. */
    function BucketOf(k: I): Bucket<K, V>
      reads this
    {
      if buckets == [] then Unused else buckets[h.hash(k) % |buckets|]
    }

    /** The list of that bucket is there and not full. */
    predicate HasRoom(k: I)
      reads this
    {
      RoomIn(BucketOf(k))
    }

    /** The requests of a `set` before it checks the load. */
    ghost function StoreCalls(k: I): nat
      reads this
    {
      if k in m then 0 else 3 + InsertCalls(BucketOf(k))
    }

    /** The requests that growing would make after a `set`: one for the larger array, and those of the
        lists that its entries fill there. */
    ghost function GrowCalls(k: I): nat
      reads this
    {
      1 + Filling(buckets, if k in m then [] else [h.hash(k)])
    }

    /** A `set` whose first request is request `c`: its requests are known before the call. */
    ghost function PlanFor(k: I, c: nat): GrowthPlan
      reads this
    {
      GrowthPlan(|buckets|, c + StoreCalls(k), GrowCalls(k))
    }

    /** One of the requests of a `set` before it checks the load fails, when the first of them is
        request `c`. */
    ghost predicate StoreFails(k: I, fails: nat -> bool, c: nat)
      reads this
    {
      k !in m && EntryFails(fails, c, BucketOf(k))
    }

    constructor (h: Hasher<K, I>, implBlock: Block, mapBlock: Block, buckets: seq<Bucket<K, V>>)
      requires ValidBuckets(h, buckets) && Lists(h, Flat(buckets), map[])
      ensures Valid() && m == map[] && this.h == h && this.buckets == buckets
      ensures this.implBlock == implBlock && this.mapBlock == mapBlock
    {
      this.h, this.implBlock, this.mapBlock, this.buckets, size, m := h, implBlock, mapBlock, buckets, 0, map[];
    }

    static method RoundCapacity(requested: nat) returns (capacity: nat)
      requires 1 <= requested < SIZE_MODULUS
      ensures IsPow2(capacity)
      ensures requested <= SIZE_MODULUS / 2 ==> LeastPowerFrom(requested, capacity)
      ensures requested > SIZE_MODULUS / 2 ==> capacity == 1
    {
      capacity := requested;
      PowerTest(capacity);
      if And(capacity, capacity - 1) != 0 {
        capacity := NextPowerOfTwo(capacity);
        assert 1 == Pow2(0);
      } else {
        PowersAreBelowHalf(capacity);
      }
    }

    /** The requested capacity is rounded up to a power of two (or wraps to 1 above 2^63). */
    static method Init(initialCapacity: nat, h: Hasher<K, I>, alloc: Allocator)
      returns (ret: Ret, hm: HashMap?<K, V, I>)
      requires alloc.Valid() && initialCapacity < SIZE_MODULUS
      modifies alloc
      ensures alloc.Valid() && alloc.calls >= old(alloc.calls)
      ensures hm == null ==> alloc.live == old(alloc.live)
      ensures hm == null <==> ret != Ok
      ensures ret == InvalidArgument <==> initialCapacity < 1
      ensures ret == Ok || ret == InvalidArgument || ret == BadAlloc
      ensures ret == BadAlloc <==>
              1 <= initialCapacity && (alloc.fails(old(alloc.calls)) || alloc.fails(old(alloc.calls) + 1))
      ensures alloc.NoFailure(old(alloc.calls), alloc.calls) && 1 <= initialCapacity ==> ret == Ok
      ensures hm != null ==> alloc.calls == old(alloc.calls) + 2
      ensures hm != null ==> forall b :: 0 <= b < |hm.buckets| ==> hm.buckets[b].Unused?
      ensures hm != null && initialCapacity > SIZE_MODULUS / 2 ==> |hm.buckets| == 1
      ensures hm != null ==> ret == Ok && fresh(hm) && hm.Valid() && hm.m == map[] && hm.h == h
      ensures hm != null ==> alloc.live == old(alloc.live) + hm.Owned()
      ensures hm != null && initialCapacity <= SIZE_MODULUS / 2 ==> LeastPowerFrom(initialCapacity, |hm.buckets|)
    {
      hide LeastPowerFrom, IsPow2, HashMap.Owned, HashMap.Valid, Allocator.NoFailure;
      if initialCapacity < 1 {
        return InvalidArgument, null;
      }
      var capacity := RoundCapacity(initialCapacity);
      ret, hm := NewTable(capacity, h, alloc);
    }

    static method NewTable(capacity: nat, h: Hasher<K, I>, alloc: Allocator) returns (ret: Ret, hm: HashMap?<K, V, I>)
      requires alloc.Valid() && IsPow2(capacity)
      modifies alloc
      ensures alloc.Valid() && alloc.calls >= old(alloc.calls)
      ensures hm == null ==> alloc.live == old(alloc.live) && ret == BadAlloc
      ensures hm == null <==> alloc.fails(old(alloc.calls)) || alloc.fails(old(alloc.calls) + 1)
      ensures hm != null ==> alloc.calls == old(alloc.calls) + 2
      ensures alloc.NoFailure(old(alloc.calls), alloc.calls) ==> ret == Ok
      ensures hm != null ==> ret == Ok && fresh(hm) && hm.Valid() && hm.m == map[] && hm.h == h
      ensures hm != null ==> alloc.live == old(alloc.live) + hm.Owned() && |hm.buckets| == capacity
      ensures hm != null ==> forall b :: 0 <= b < capacity ==> hm.buckets[b].Unused?
    {
      hide Flat, ListBlocks, EntryBlocks, ValidBuckets, Lists, Pow2, IsPow2, Allocator.NoFailure;
      EmptyTable<K, V, I>(h, capacity);
      var impl := alloc.Allocate();
      if impl.None? {
        FailedAt(alloc, old(alloc.calls), old(alloc.calls), alloc.calls);
        return BadAlloc, null;
      }
      var block, empty := AllocateNewMap<K, V>(capacity, alloc);
      if block.None? {
        alloc.Deallocate(impl, old(alloc.live));
        FailedAt(alloc, old(alloc.calls), old(alloc.calls) + 1, alloc.calls);
        return BadAlloc, null;
      }
      hm := new HashMap(h, impl.value, block.value, empty);
      ret := Ok;
    }

    /** `hash_map_fini`: afterwards nothing the map owned is live. */
    method Fini(alloc: Allocator, ghost rest: multiset<Block>)
      requires Valid() && alloc.Valid() && alloc.live == rest + Owned()
      modifies alloc`live
      ensures alloc.Valid() && alloc.live == rest
    {
      DeallocateMap(buckets, mapBlock, true, alloc, rest + multiset{implBlock});
      alloc.Deallocate(Some(implBlock), rest);
    }

    /** `hash_map_find`: scan the one bucket `hash & (capacity - 1)`, comparing hashes first. */
    method Find(key: K) returns (hash: nat, b: nat, i: Option<nat>)
      requires Valid()
      ensures hash == h.hash(h.ident(key)) && b < |buckets| && b == hash % |buckets|
      ensures i.Some? <==> h.ident(key) in m
      ensures i.Some? ==> i.value < |buckets[b].Items()| && buckets[b].Items()[i.value] == m[h.ident(key)]
      ensures i.Some? ==> h.Id(m[h.ident(key)]) == h.ident(key)
    {
      hide Lists;
      hash := h.hash(h.ident(key));
      MaskIsMod(hash, |buckets|);
      b := And(hash, |buckets| - 1);
      LookInBucket(h, buckets, m, h.ident(key));
      var items := buckets[b].Items();
      for j := 0 to |items|
        invariant forall l :: 0 <= l < j ==> h.Id(items[l]) != h.ident(key)
      {
        assert PlacedAt(h, items[j], |buckets|, b);
        if items[j].hash == hash && h.ident(items[j].key) == h.ident(key) {
          return hash, b, Some(j);
        }
      }
      i := None;
    }

    method KeyExists(key: K) returns (exists_: bool)
      requires Valid()
      ensures exists_ <==> h.ident(key) in m
    {
      if size == 0 {
        return false;
      }
      var hash, b, i := Find(key);
      exists_ := i.Some?;
    }

    method Get(key: K) returns (ret: Ret, data: Option<V>)
      requires Valid()
      ensures h.ident(key) in m ==> ret == Ok && data == Some(m[h.ident(key)].value)
      ensures h.ident(key) !in m ==> ret == NotFound && data == None
    {
      if size == 0 {
        return NotFound, None;
      }
      var hash, b, i := Find(key);
      if i.None? {
        return NotFound, None;
      }
      return Ok, Some(buckets[b].Items()[i.value].value);
    }

    /** `memcpy(entry->value, value, ..)` on a stored entry. */
    method Overwrite(b: nat, i: nat, value: V)
      requires Valid() && b < |buckets| && i < |buckets[b].Items()|
      modifies this`buckets, this`m
      ensures Valid() && Owned() == old(Owned())
      ensures var e := old(buckets)[b].Items()[i];
              h.Id(e) in old(m) && old(m)[h.Id(e)] == e && m == old(m)[h.Id(e) := e.(value := value)]
      ensures |buckets| == |old(buckets)| && Filling(buckets, []) == Filling(old(buckets), [])
    {
      hide Lists, ValidBuckets, ListBlocks, EntryBlocks, Flat, OwnBlocks, Filling;
      var list := buckets[b].list;
      var e := list.items[i].(value := value);
      ghost var x := Used(list.(items := list.items[i := e]));
      OverwriteLemma(h, buckets, m, b, i, e, x);
      OverwriteFilling(buckets, b, i, x);
      buckets := buckets[b := Used(list.(items := list.items[i := e]))];
      m := m[h.Id(e) := e];
    }

    /** Allocate the three blocks of a new entry, all or none. */
    static method AllocateEntry(alloc: Allocator) returns (ret: Ret, self: Block, keyBlock: Block, valueBlock: Block)
      requires alloc.Valid()
      modifies alloc
      ensures alloc.Valid() && alloc.calls >= old(alloc.calls)
      ensures ret == Ok || (ret == BadAlloc && alloc.live == old(alloc.live))
      ensures ret == Ok ==> alloc.live == old(alloc.live) + multiset{self} + multiset{keyBlock} + multiset{valueBlock}
      ensures ret == BadAlloc ==> !alloc.NoFailure(old(alloc.calls), alloc.calls)
      ensures ret == BadAlloc <==>
              alloc.fails(old(alloc.calls)) || alloc.fails(old(alloc.calls) + 1) || alloc.fails(old(alloc.calls) + 2)
      ensures ret == Ok ==> alloc.calls == old(alloc.calls) + 3
    {
      hide Allocator.NoFailure;
      self, keyBlock, valueBlock := 0, 0, 0;
      var entry := alloc.Allocate();
      if entry.None? {
        FailedAt(alloc, old(alloc.calls), old(alloc.calls), alloc.calls);
        return BadAlloc, 0, 0, 0;
      }
      ghost var middle := alloc.calls;
      var key, value := AllocateStrings(alloc);
      if key.None? || value.None? {
        FailedLater(alloc, old(alloc.calls), middle, alloc.calls);
        DeallocateEntry(entry.value, key, value, alloc, old(alloc.live));
        return BadAlloc, 0, 0, 0;
      }
      return Ok, entry.value, key.value, value.value;
    }

    /** The blocks of key and value are requested one after the other, whether or not the first is there. */
    static method AllocateStrings(alloc: Allocator) returns (key: Option<Block>, value: Option<Block>)
      requires alloc.Valid()
      modifies alloc
      ensures alloc.Valid() && alloc.calls == old(alloc.calls) + 2
      ensures alloc.live == old(alloc.live) + Blocks(key) + Blocks(value)
      ensures (key.None? <==> alloc.fails(old(alloc.calls))) && (value.None? <==> alloc.fails(old(alloc.calls) + 1))
      ensures key.None? || value.None? ==> !alloc.NoFailure(old(alloc.calls), alloc.calls)
    {
      key := alloc.Allocate();
      value := alloc.Allocate();
    }

    static method NewEntry(hash: nat, key: K, value: V, alloc: Allocator) returns (ret: Ret, e: Option<Entry<K, V>>)
      requires alloc.Valid()
      modifies alloc
      ensures alloc.Valid() && alloc.calls >= old(alloc.calls)
      ensures e.None? ==> ret == BadAlloc && alloc.live == old(alloc.live)
      ensures e.Some? ==> ret == Ok && alloc.live == old(alloc.live) + EntryBlocks([e.value])
      ensures e.Some? ==> e.value.hash == hash && e.value.key == key && e.value.value == value
      ensures e.None? <==>
              alloc.fails(old(alloc.calls)) || alloc.fails(old(alloc.calls) + 1) || alloc.fails(old(alloc.calls) + 2)
      ensures e.Some? ==> alloc.calls == old(alloc.calls) + 3
      ensures alloc.NoFailure(old(alloc.calls), alloc.calls) ==> ret == Ok
    {
      hide EntryBlocks, OwnBlocks, Allocator.NoFailure;
      var self, keyBlock, valueBlock;
      ret, self, keyBlock, valueBlock := AllocateEntry(alloc);
      if ret != Ok {
        return ret, None;
      }
      e := Some(Entry(hash, key, value, self, keyBlock, valueBlock));
      ThreeBlocks(old(alloc.live), e.value);
    }

    static method FreeEntry(e: Entry<K, V>, alloc: Allocator, ghost rest: multiset<Block>)
      requires alloc.Valid() && alloc.live == rest + EntryBlocks([e])
      modifies alloc`live
      ensures alloc.Valid() && alloc.live == rest
    {
      EntryBlocksOne(e);
      DeallocateEntry(e.self, Some(e.keyBlock), Some(e.valueBlock), alloc, rest);
    }

    /** The branch of `set` for a key that is not in the map. */
    method InsertNew(hash: nat, b: nat, key: K, value: V, alloc: Allocator, ghost rest: multiset<Block>)
      returns (ret: Ret)
      requires Valid() && h.ident(key) !in m && hash == h.hash(h.ident(key)) && b < |buckets| && b == hash % |buckets|
      requires alloc.Valid() && alloc.live == rest + Owned()
      modifies this`buckets, this`size, this`m, alloc
      ensures Valid() && alloc.Valid() && alloc.live == rest + Owned() && alloc.calls >= old(alloc.calls)
      ensures |buckets| == |old(buckets)|
      ensures ret == Ok || (ret == BadAlloc && unchanged(this))
      ensures ret == Ok ==> Bound(key, value) && m == old(m)[h.ident(key) := m[h.ident(key)]]
      ensures ret == BadAlloc <==> EntryFails(alloc.fails, old(alloc.calls), old(buckets)[b])
      ensures ret == Ok ==> alloc.calls == old(alloc.calls) + 3 + InsertCalls(old(buckets)[b])
      ensures ret == Ok ==> Filling(buckets, []) == Filling(old(buckets), [hash])
      ensures alloc.NoFailure(old(alloc.calls), alloc.calls) ==> ret == Ok
    {
      hide Valid, Owned, EntryBlocks, Allocator.NoFailure, InsertFails, InsertCalls, Filling;
      var e;
      ret, e := NewEntry(hash, key, value, alloc);
      if ret != Ok {
        return;
      }
      ghost var middle := alloc.calls;
      ret := AppendEntry(b, e.value, alloc, rest);
      if ret != Ok {
        FailedLater(alloc, old(alloc.calls), middle, alloc.calls);
        FreeEntry(e.value, alloc, rest + Owned());
      }
    }

    /** The new entry goes to the end of its bucket; it stays the caller's when that fails. */
    method AppendEntry(b: nat, e: Entry<K, V>, alloc: Allocator, ghost rest: multiset<Block>) returns (ret: Ret)
      requires Valid() && h.Id(e) !in m && e.hash == h.hash(h.Id(e)) && b < |buckets| && b == e.hash % |buckets|
      requires alloc.Valid() && alloc.live == rest + Owned() + EntryBlocks([e])
      modifies this`buckets, this`size, this`m, alloc
      ensures Valid() && alloc.Valid() && alloc.calls >= old(alloc.calls) && |buckets| == |old(buckets)|
      ensures ret == Ok || (ret == BadAlloc && unchanged(this))
      ensures alloc.live == rest + Owned() + (if ret == Ok then multiset{} else EntryBlocks([e]))
      ensures ret == Ok ==> m == old(m)[h.Id(e) := e]
      ensures ret == BadAlloc <==> InsertFails(alloc.fails, old(alloc.calls), old(buckets)[b])
      ensures ret == Ok ==> alloc.calls == old(alloc.calls) + InsertCalls(old(buckets)[b])
      ensures ret == Ok ==> Filling(buckets, []) == Filling(old(buckets), [e.hash])
      ensures alloc.NoFailure(old(alloc.calls), alloc.calls) ==> ret == Ok
    {
      hide Lists, ValidBuckets, ListBlocks, EntryBlocks;
      hide Flat, OwnBlocks, Bucket.Items, Bucket.Valid, Allocator.NoFailure;
      hide InsertFails, InsertCalls, Takes, Filling;
      ghost var own := EntryBlocks([e]);
      ghost var others := rest + multiset{implBlock} + multiset{mapBlock} + EntryBlocks(Flat(buckets));
      BucketValid(h, buckets, b);
      Regroup(rest, multiset{implBlock}, multiset{mapBlock}, ListBlocks(buckets), EntryBlocks(Flat(buckets)), own);
      var after;
      ret, after := InsertEntry(buckets, b, e, alloc, others + own);
      if ret == Ok {
        InsertLemma(h, buckets, m, e, after[b]);
        InsertFilling(buckets, e, after[b]);
        Regroup(rest, multiset{implBlock}, multiset{mapBlock}, ListBlocks(after), EntryBlocks(Flat(buckets)), own);
        buckets, size, m := after, size + 1, m[h.Id(e) := e];
      }
    }

    ghost predicate Bound(key: K, value: V)
      reads this
    {
      h.ident(key) in m && m[h.ident(key)].key == key && m[h.ident(key)].value == value
    }

    /** The larger array with every entry moved into it, or nothing when any request failed. */
    method BuildLarger(alloc: Allocator, ghost rest: multiset<Block>)
      returns (ret: Ret, block: Block, after: seq<Bucket<K, V>>)
      requires Valid() && alloc.Valid() && alloc.live == rest
      modifies alloc
      ensures alloc.Valid() && alloc.calls >= old(alloc.calls)
      ensures ret == Ok || ret == BadAlloc
      ensures alloc.NoFailure(old(alloc.calls), alloc.calls) <==> ret == Ok
      ensures alloc.calls > old(alloc.calls) && (alloc.fails(old(alloc.calls)) ==> alloc.calls == old(alloc.calls) + 1)
      ensures alloc.calls <= old(alloc.calls) + 1 + Filling(buckets, [])
      ensures ret == Ok ==> alloc.calls == old(alloc.calls) + 1 + Filling(buckets, [])
      ensures ret == BadAlloc ==> alloc.live == rest
      ensures ret == Ok ==> alloc.live == rest + multiset{block} + ListBlocks(after)
      ensures ret == Ok ==> Rehashed(h, Listing(), after, m) && |after| == 2 * |buckets|
    {
      hide Lists, ValidBuckets, ListBlocks, EntryBlocks, Flat, Rehashed, FilledBy, FillCalls;
      block, after := 0, [];
      FillingAll(buckets);
      var table, empty := AllocateNewMap<K, V>(2 * |buckets|, alloc);
      if table.None? {
        return BadAlloc, 0, [];
      }
      block := table.value;
      DoubledIsReady(h, buckets);
      ret, after := Rehash(h, buckets, empty, alloc, m, rest + multiset{block});
      if ret != Ok {
        DeallocateMap(after, block, false, alloc, rest);
      }
    }

    /** Free the old bucket array, but none of its entries, and swap in the new one. */
    method Install(block: Block, after: seq<Bucket<K, V>>, alloc: Allocator, ghost rest: multiset<Block>)
      requires Valid() && alloc.Valid() && alloc.live == rest + Owned() + multiset{block} + ListBlocks(after)
      requires Rehashed(h, Listing(), after, m)
      modifies this`buckets, this`mapBlock, alloc`live
      ensures Valid() && alloc.Valid() && alloc.live == rest + Owned() && buckets == after
    {
      hide Lists, ValidBuckets, ListBlocks, EntryBlocks, Flat;
      ghost var entries := EntryBlocks(Flat(buckets));
      Exchange(rest, multiset{implBlock}, entries, multiset{mapBlock}, ListBlocks(buckets), multiset{block},
               ListBlocks(after));
      DeallocateMap(buckets, mapBlock, false, alloc,
                    rest + multiset{implBlock} + entries + multiset{block} + ListBlocks(after));
      buckets, mapBlock := after, block;
    }

    /** `hash_map_check_and_grow_map`: doubling moves every entry and frees none; a failure at any
        point of the rehash leaves the map as it was. */
    method CheckAndGrow(alloc: Allocator, ghost rest: multiset<Block>) returns (ret: Ret)
      requires Valid() && alloc.Valid() && alloc.live == rest + Owned()
      modifies this`buckets, this`mapBlock, alloc
      ensures Valid() && alloc.Valid() && alloc.live == rest + Owned() && alloc.calls >= old(alloc.calls)
      ensures ret == Ok || ret == BadAlloc
      ensures alloc.NoFailure(old(alloc.calls), alloc.calls) <==> ret == Ok
      ensures old(size) < 3 * |old(buckets)| / 4 <==> alloc.calls == old(alloc.calls)
      ensures !old(BelowLoad()) && alloc.fails(old(alloc.calls)) ==> alloc.calls == old(alloc.calls) + 1
      ensures !old(BelowLoad()) ==> alloc.calls <= old(alloc.calls) + 1 + Filling(old(buckets), [])
      ensures !old(BelowLoad()) && ret == Ok ==> alloc.calls == old(alloc.calls) + 1 + Filling(old(buckets), [])
      ensures old(BelowLoad()) || ret != Ok ==> unchanged(this)
      ensures !old(BelowLoad()) && ret == Ok ==> |buckets| == 2 * |old(buckets)|
    {
      hide Valid, Owned, ListBlocks, Rehashed, Allocator.NoFailure, Filling;
      if BelowLoad() {
        NothingFailed(alloc, alloc.calls);
        return Ok;
      }
      var block, after;
      ret, block, after := BuildLarger(alloc, rest + Owned());
      if ret == Ok {
        Install(block, after, alloc, rest);
      }
    }

    /** `set` up to the load check: overwrite in place, or insert a new entry. */
    method Store(key: K, value: V, alloc: Allocator, ghost rest: multiset<Block>) returns (ret: Ret)
      requires Valid() && alloc.Valid() && alloc.live == rest + Owned()
      modifies this`buckets, this`size, this`m, alloc
      ensures Valid() && alloc.Valid() && alloc.live == rest + Owned() && alloc.calls >= old(alloc.calls)
      ensures ret == Ok || (ret == BadAlloc && h.ident(key) !in old(m) && unchanged(this))
      ensures alloc.NoFailure(old(alloc.calls), alloc.calls) ==> ret == Ok
      ensures ret == Ok ==> h.ident(key) in m && m == old(m)[h.ident(key) := m[h.ident(key)]]
      ensures ret == Ok && h.ident(key) !in old(m) ==> Bound(key, value)
      ensures h.ident(key) in old(m) ==> m[h.ident(key)] == old(m)[h.ident(key)].(value := value)
      ensures ret == BadAlloc <==> old(StoreFails(h.ident(key), alloc.fails, alloc.calls))
      ensures ret == Ok ==> alloc.calls == old(alloc.calls) + old(StoreCalls(h.ident(key)))
      ensures ret == Ok ==> 1 + Filling(buckets, []) == old(GrowCalls(h.ident(key)))
      ensures |buckets| == |old(buckets)| && size <= old(size) + 1
      ensures h.ident(key) in old(m) ==> size == old(size)
    {
      hide Lists, ValidBuckets, ListBlocks, EntryBlocks, Flat, OwnBlocks;
      var hash, b, i := Find(key);
      if i.Some? {
        Overwrite(b, i.value, value);
        ret := Ok;
      } else {
        ret := InsertNew(hash, b, key, value, alloc, rest);
      }
    }

    /** `rcutils_hash_map_set`.  An existing key keeps its stored key and gets the new value; only
        the insertion of a new key can fail, and then the map is as it was.  That growing failed
        is not reported. */
    method Set(key: K, value: V, alloc: Allocator, ghost rest: multiset<Block>) returns (ret: Ret)
      requires Valid() && alloc.Valid() && alloc.live == rest + Owned()
      modifies this, alloc
      ensures Valid() && alloc.Valid() && alloc.live == rest + Owned() && alloc.calls >= old(alloc.calls)
      ensures ret == Ok || (ret == BadAlloc && h.ident(key) !in old(m) && unchanged(this))
      ensures alloc.NoFailure(old(alloc.calls), alloc.calls) ==> ret == Ok
      ensures ret == Ok ==> h.ident(key) in m && m == old(m)[h.ident(key) := m[h.ident(key)]]
      ensures ret == Ok && h.ident(key) !in old(m) ==> Bound(key, value)
      ensures h.ident(key) in old(m) ==> m[h.ident(key)] == old(m)[h.ident(key)].(value := value)
      ensures alloc.NoFailure(old(alloc.calls), alloc.calls) && 2 <= |old(buckets)| ==>
                4 * old(size) <= 3 * |old(buckets)| ==> size < 3 * |buckets| / 4
      ensures alloc.NoFailure(old(alloc.calls), alloc.calls) && |old(buckets)| == 1 && old(size) == 0 ==>
                |buckets| == 2 && size <= 1
      ensures ret == BadAlloc <==> old(StoreFails(h.ident(key), alloc.fails, alloc.calls))
      ensures ret == Ok ==> Grown(old(PlanFor(h.ident(key), alloc.calls)), alloc)
    {
      hide Valid, Owned, StoreFails, StoreCalls, GrowCalls, Filling, Allocator.NoFailure;
      ret := Store(key, value, alloc, rest);
      if ret != Ok {
        return;
      }
      ghost var stored, cost := alloc.calls, 1 + Filling(buckets, []);
      ret := CheckAndGrow(alloc, rest);
      FailedBefore(alloc, stored, alloc.calls, stored + cost);
      FailedLater(alloc, old(alloc.calls), stored, alloc.calls);
      ret := Ok;
    }

    /** The capacity after a `set` that was not refused: at the load factor it doubles exactly when none
        of the `cost` requests from `stored` on fails, and a failure there is not reported. */
    ghost predicate Grown(plan: GrowthPlan, alloc: Allocator)
      reads this, alloc
    {
      var GrowthPlan(capacity, stored, cost) := plan;
      var full := size >= 3 * capacity / 4;
      && |buckets| == (if full && alloc.NoFailure(stored, stored + cost) then 2 * capacity else capacity)
      && (!full ==> alloc.calls == stored)
      && (full ==> stored < alloc.calls <= stored + cost)
      && (full && alloc.fails(stored) ==> alloc.calls == stored + 1)
      && (full && alloc.NoFailure(stored, alloc.calls) ==> alloc.calls == stored + cost)
    }

    /** `rcutils_hash_map_unset`: removes the entry, if any, and gives back exactly its blocks;
        the entries after it move up by one, in the same order. */
    method Unset(key: K, alloc: Allocator, ghost rest: multiset<Block>)
      requires Valid() && alloc.Valid() && alloc.live == rest + Owned()
      modifies this`buckets, this`size, this`m, alloc`live
      ensures Valid() && alloc.Valid() && alloc.live == rest + Owned()
      ensures m == old(m) - {h.ident(key)} && |buckets| == |old(buckets)| && size <= old(size)
      ensures h.ident(key) !in old(m) ==> unchanged(this)
      ensures h.ident(key) in old(m) ==> HasRoom(h.ident(key))
      ensures forall k :: old(HasRoom(k)) ==> HasRoom(k)
      ensures Removed(h, old(Listing()), Listing(), h.ident(key))
    {
      hide Lists, ValidBuckets, ListBlocks, EntryBlocks, Flat, OwnBlocks, Removed, RoomIn, Bucket.Items, Without;
      if size == 0 {
        NothingRemoved(h, Listing(), m, h.ident(key));
        return;
      }
      var hash, b, i := Find(key);
      if i.None? {
        NothingRemoved(h, Listing(), m, h.ident(key));
        return;
      }
      var e := RemoveAt(b, i.value);
      FreeEntry(e, alloc, rest + Owned());
    }

    /** The entry leaves its bucket, but its blocks are still to be freed. */
    method RemoveAt(b: nat, i: nat) returns (e: Entry<K, V>)
      requires Valid() && b < |buckets| && i < |buckets[b].Items()|
      modifies this`buckets, this`size, this`m
      ensures Valid() && e == old(buckets)[b].Items()[i] && m == old(m) - {h.Id(e)} && size == old(size) - 1
      ensures old(Owned()) == Owned() + EntryBlocks([e])
      ensures |buckets| == |old(buckets)| && buckets == old(buckets)[b := buckets[b]] && RoomIn(buckets[b])
      ensures Removed(h, old(Listing()), Listing(), h.Id(e))
    {
      hide Lists, ValidBuckets, ListBlocks, EntryBlocks, Flat;
      hide OwnBlocks, Removed, Without, RoomIn, Bucket.Items, Bucket.Owned;
      ItemsAre(buckets[b], i);
      e := buckets[b].list.items[i];
      var x := Used(buckets[b].list.(items := Without(buckets[b].list.items, i)));
      RemovedFrom(h, buckets, m, b, i, e, x);
      TakenOut(multiset{implBlock}, multiset{mapBlock}, ListBlocks(buckets), EntryBlocks(Flat(buckets[b := x])),
               EntryBlocks([e]));
      buckets, size, m := buckets[b := x], size - 1, m - {h.Id(e)};
    }

    /** The scan of `get_next_key_and_data`, from position `i` of bucket `b` on. */
    method ScanFrom(b: nat, i: nat) returns (ret: Ret, key: Option<K>, data: Option<V>)
      requires Valid() && b < |buckets| && i <= |buckets[b].Items()|
      ensures IsAt(Listing(), |Flat(buckets[..b])| + i, ret, key, data)
    {
      hide Lists, ValidBuckets, Flat;
      ghost var p := |Flat(buckets[..b])| + i;
      var mapIndex: nat, bucketIndex: nat := b, i;
      while mapIndex < |buckets|
        invariant mapIndex <= |buckets|
        invariant if mapIndex < |buckets| then bucketIndex <= |buckets[mapIndex].Items()| else bucketIndex == 0
        invariant |Flat(buckets[..mapIndex])| + bucketIndex == p
      {
        FlatSplit(buckets, mapIndex);
        if bucketIndex < |buckets[mapIndex].Items()| {
          var e := buckets[mapIndex].Items()[bucketIndex];
          return Ok, Some(e.key), Some(e.value);
        }
        FlatPrefix(buckets, mapIndex);
        mapIndex, bucketIndex := mapIndex + 1, 0;
      }
      assert buckets[..|buckets|] == buckets;
      return NoMoreEntries, None, None;
    }

    /** `rcutils_hash_map_get_next_key_and_data`: the first entry when there is no previous key,
        otherwise the entry listed right after the one with the previous key. */
    method GetNext(previous: Option<K>) returns (ret: Ret, key: Option<K>, data: Option<V>)
      requires Valid()
      ensures previous.None? ==> IsAt(Listing(), 0, ret, key, data)
      ensures previous.Some? && h.ident(previous.value) !in m ==> ret == NotFound && key == None && data == None
      ensures previous.Some? ==> forall j :: 0 <= j < |Listing()| && h.Id(Listing()[j]) == h.ident(previous.value) ==>
                                               IsAt(Listing(), j + 1, ret, key, data)
    {
      hide Lists, ValidBuckets, Flat;
      ListsSize(h, Listing(), m);
      if size == 0 {
        return (if previous.Some? then NotFound else NoMoreEntries), None, None;
      }
      if previous.None? {
        NothingBefore(h, buckets);
        ret, key, data := ScanFrom(0, 0);
      } else {
        var hash, b, i := Find(previous.value);
        if i.None? {
          NotListed(h, Listing(), m, h.ident(previous.value));
          return NotFound, None, None;
        }
        PositionIs(h, buckets, m, b, i.value);
        ret, key, data := ScanFrom(b, i.value + 1);
      }
    }

    /** A caller's loop: start from NULL and feed back each returned key.  It meets the entries in
        listing order, each exactly once, and ends with NO_MORE_ENTRIES. */
    method Enumerate() returns (pairs: seq<(K, V)>, last: Ret)
      requires Valid()
      ensures |pairs| == size && last == NoMoreEntries
      ensures |Listing()| == size && forall j :: 0 <= j < size ==> pairs[j] == (Listing()[j].key, Listing()[j].value)
    {
      ListsSize(h, Listing(), m);
      pairs := [];
      var ret, key, data := GetNext(None);
      while ret == Ok
        invariant |pairs| <= |Listing()|
        invariant forall j :: 0 <= j < |pairs| ==> pairs[j] == (Listing()[j].key, Listing()[j].value)
        invariant IsAt(Listing(), |pairs|, ret, key, data)
        decreases |Listing()| - |pairs|
      {
        pairs := pairs + [(key.value, data.value)];
        ret, key, data := GetNext(key);
      }
      last := ret;
    }
  }

  /** The oracle of the example below: request 7, the one for the larger array, fails. */
  predicate Seven(n: nat) {
    n == 7
  }

  method OneBucket<K, V, I(!new, ==)>(h: Hasher<K, I>, k: I) returns (hm: HashMap<K, V, I>, alloc: Allocator)
    ensures fresh(hm) && fresh(alloc) && hm.Valid() && alloc.Valid() && alloc.live == multiset{} + hm.Owned()
    ensures alloc.fails == Seven && alloc.calls == 2 && hm.h == h && hm.m == map[] && |hm.buckets| == 1
    ensures hm.PlanFor(k, 2).stored == 7 && hm.PlanFor(k, 2).capacity == 1 && !hm.StoreFails(k, alloc.fails, 2)
  {
    hide HashMap.Valid, HashMap.Owned, HashMap.StoreFails;
    hide HashMap.StoreCalls, LeastPowerFrom, Allocator.NoFailure, Allocator.Valid;
    alloc := new Allocator(Seven);
    var ret, made := HashMap<K, V, I>.Init(1, h, alloc);
    hm := made;
    OneIsLeast(|hm.buckets|);
    EmptyBucket(hm, k, alloc.fails, 2);
  }

  /** A `set` that reports success although it could not grow a full map. */
  method GrowthFailureIsSilent<K, V, I(!new, ==)>(h: Hasher<K, I>, key: K, value: V)
    returns (ret: Ret, hm: HashMap<K, V, I>, alloc: Allocator)
    ensures ret == Ok && hm.Valid() && hm.size == 1 && |hm.buckets| == 1 && !hm.BelowLoad()
    ensures alloc.fails == Seven && alloc.calls > 7
  {
    hide *;
    hm, alloc := OneBucket(h, h.ident(key));
    ghost var plan := hm.PlanFor(h.ident(key), alloc.calls);
    ret := hm.Set(key, value, alloc, multiset{});
    NotGrown(hm, plan, alloc);
  }

  lemma NotGrown<K, V, I(!new)>(hm: HashMap<K, V, I>, plan: GrowthPlan, alloc: Allocator)
    requires hm.Valid() && hm.Grown(plan, alloc) && plan.capacity == 1
    requires plan.stored == 7 && alloc.fails == Seven && |hm.m| == 1
    ensures hm.size == 1 && |hm.buckets| == 1 && !hm.BelowLoad() && alloc.calls > 7
  {
    SizeOf(hm);
    hide HashMap.Valid;
    FailedAt(alloc, 7, 7, 7 + plan.cost + 1);
  }

  lemma OneIsLeast(r: nat)
    requires LeastPowerFrom(1, r)
    ensures r == 1
  {
    assert IsPow2(1) by {
      assert Pow2(0) == 1;
    }
  }

  /** The first entry of a bucket makes five requests. */
  lemma EmptyBucket<K, V, I(!new)>(hm: HashMap<K, V, I>, k: I, fails: nat -> bool, c: nat)
    requires k !in hm.m && hm.BucketOf(k).Unused?
    ensures hm.StoreCalls(k) == 5
    ensures hm.StoreFails(k, fails, c) <==> fails(c) || fails(c + 1) || fails(c + 2) || fails(c + 3) || fails(c + 4)
  {
  }

  lemma SizeOf<K, V, I(!new)>(hm: HashMap<K, V, I>)
    requires hm.Valid()
    ensures hm.size == |hm.m|
  {
  }

  lemma ItemsAre<K, V>(bucket: Bucket<K, V>, i: nat)
    requires i < |bucket.Items()|
    ensures bucket.Used? && i < |bucket.list.items| && bucket.Items()[i] == bucket.list.items[i]
  {
  }

  lemma TakenOut(i: multiset<Block>, t: multiset<Block>, l: multiset<Block>, e: multiset<Block>, x: multiset<Block>)
    ensures i + t + l + (e + x) == (i + t + l + e) + x
  {
  }

  lemma RemovedFrom<K, V, I(!new)>(
    h: Hasher<K, I>, buckets: seq<Bucket<K, V>>, m: map<I, Entry<K, V>>, b: nat, i: nat,
    e: Entry<K, V>, x: Bucket<K, V>)
    requires ValidBuckets(h, buckets) && Lists(h, Flat(buckets), m) && b < |buckets| && i < |buckets[b].Items()|
    requires buckets[b].Used? && i < |buckets[b].list.items| && e == buckets[b].list.items[i]
    requires x == Used(buckets[b].list.(items := Without(buckets[b].list.items, i)))
    ensures var after := buckets[b := x];
            && ValidBuckets(h, after) && Lists(h, Flat(after), m - {h.Id(e)}) && |m - {h.Id(e)}| == |m| - 1
            && ListBlocks(after) == ListBlocks(buckets) && RoomIn(x)
            && EntryBlocks(Flat(buckets)) == EntryBlocks(Flat(after)) + EntryBlocks([e])
            && Removed(h, Flat(buckets), Flat(after), h.Id(e))
  {
    BucketValid(h, buckets, b);
    RoomLeft(buckets[b].list, i);
    hide Lists, ValidBuckets, ListBlocks, EntryBlocks, Flat, OwnBlocks, Removed, Without;
    RemoveLemma(h, buckets, m, b, i, x);
  }

  lemma RoomLeft<E>(list: ListState<E>, i: nat)
    requires list.Valid() && i < |list.items|
    ensures |Without(list.items, i)| < list.capacity
  {
  }

  /** The requests for the lists of an array of twice the size, with the entries of these buckets and
      entries with the hashes `more`. */
  ghost function Filling<K, V>(buckets: seq<Bucket<K, V>>, more: seq<nat>): nat {
    if buckets == [] then 0 else FillCalls(Hashes(Flat(buckets)) + more, 2 * |buckets|)
  }

  lemma FillingAll<K, V>(buckets: seq<Bucket<K, V>>)
    ensures buckets != [] ==> Filling(buckets, []) == FillCalls(Hashes(Flat(buckets)), 2 * |buckets|)
  {
    assert Hashes(Flat(buckets)) + [] == Hashes(Flat(buckets));
  }

  /** Two requests per entry at most. */
  lemma FillingBound<K, V>(buckets: seq<Bucket<K, V>>, more: seq<nat>)
    ensures Filling(buckets, more) <= 2 * (|Flat(buckets)| + |more|)
  {
    if buckets != [] {
      FillBound(Hashes(Flat(buckets)) + more, 2 * |buckets|);
    }
  }

  lemma InsertFilling<K, V>(buckets: seq<Bucket<K, V>>, e: Entry<K, V>, x: Bucket<K, V>)
    requires 0 < |buckets| && x.Items() == buckets[e.hash % |buckets|].Items() + [e]
    ensures Filling(buckets[e.hash % |buckets| := x], []) == Filling(buckets, [e.hash])
  {
    var b := e.hash % |buckets|;
    AppendFlat(buckets, b, e, x);
    FillingAll(buckets[b := x]);
    hide Flat, Bucket.Items, Hashes, FillCalls;
    var pre, post := Flat(buckets[..b]) + buckets[b].Items(), Flat(buckets[b + 1..]);
    HashesSnoc(pre, e);
    HashesConcat(pre + [e], post);
    HashesConcat(pre, post);
    FillInsert(Hashes(pre), e.hash, Hashes(post), 2 * |buckets|);
  }

  lemma OverwriteFilling<K, V>(buckets: seq<Bucket<K, V>>, b: nat, i: nat, x: Bucket<K, V>)
    requires b < |buckets| && i < |buckets[b].Items()| == |x.Items()|
    requires x.Items() == buckets[b].Items()[i := x.Items()[i]] && x.Items()[i].hash == buckets[b].Items()[i].hash
    ensures Filling(buckets[b := x], []) == Filling(buckets, [])
  {
    FlatSplit(buckets, b);
    FlatUpdate(buckets, b, x);
    hide Flat, Bucket.Items;
    assert Hashes(Flat(buckets[b := x])) == Hashes(Flat(buckets));
  }

  lemma ThreeBlocks<K, V>(base: multiset<Block>, e: Entry<K, V>)
    ensures base + multiset{e.self} + multiset{e.keyBlock} + multiset{e.valueBlock} == base + EntryBlocks([e])
  {
    EntryBlocksOne(e);
  }

  lemma EmptyTable<K, V, I(!new)>(h: Hasher<K, I>, capacity: nat)
    requires IsPow2(capacity)
    ensures var empty := seq<Bucket<K, V>>(capacity, _ => Unused);
            && ValidBuckets(h, empty) && Lists(h, Flat(empty), map[])
            && ListBlocks(empty) == multiset{} && EntryBlocks(Flat(empty)) == multiset{}
  {
    RehashStart<K, V, I>(h, capacity);
    UnusedIsEmpty<K, V>(capacity);
  }

  lemma NothingBefore<K, V, I(!new)>(h: Hasher<K, I>, buckets: seq<Bucket<K, V>>)
    requires ValidBuckets(h, buckets)
    ensures 0 < |buckets| && Flat(buckets[..0]) == []
  {
  }

  lemma NotListed<K, V, I(!new)>(h: Hasher<K, I>, items: seq<Entry<K, V>>, m: map<I, Entry<K, V>>, k: I)
    requires Lists(h, items, m) && k !in m
    ensures forall j :: 0 <= j < |items| ==> h.Id(items[j]) != k
  {
  }

  /** Entry `i` of bucket `b` is the only one in the listing with its key. */
  lemma PositionIs<K, V, I(!new)>(h: Hasher<K, I>, buckets: seq<Bucket<K, V>>, m: map<I, Entry<K, V>>, b: nat, i: nat)
    requires Lists(h, Flat(buckets), m) && b < |buckets| && i < |buckets[b].Items()|
    ensures forall j :: 0 <= j < |Flat(buckets)| && h.Id(Flat(buckets)[j]) == h.Id(buckets[b].Items()[i]) ==>
                          j == |Flat(buckets[..b])| + i
  {
    FlatSplit(buckets, b);
    hide Flat;
    assert Flat(buckets)[|Flat(buckets[..b])| + i] == buckets[b].Items()[i];
  }

  lemma NothingRemoved<K, V, I(!new)>(h: Hasher<K, I>, items: seq<Entry<K, V>>, m: map<I, Entry<K, V>>, k: I)
    requires Lists(h, items, m) && k !in m
    ensures Removed(h, items, items, k) && m == m - {k}
  {
  }

  /** What the iteration returns at position `p` of a listing. */
  ghost predicate IsAt<K, V>(listing: seq<Entry<K, V>>, p: nat, ret: Ret, key: Option<K>, data: Option<V>) {
    if p < |listing| then
      ret == Ok && key == Some(listing[p].key) && data == Some(listing[p].value)
    else
      ret == NoMoreEntries && key == None && data == None
  }

  /** `after` is `before` without the entry for identity `k`, if it has one. */
  ghost predicate Removed<K, V, I(!new)>(h: Hasher<K, I>, before: seq<Entry<K, V>>, after: seq<Entry<K, V>>, k: I) {
    && ((forall j :: 0 <= j < |before| ==> h.Id(before[j]) != k) ==> after == before)
    && (forall j :: 0 <= j < |before| && h.Id(before[j]) == k ==> after == Without(before, j))
  }

  lemma DoubledIsReady<K, V, I(!new)>(h: Hasher<K, I>, buckets: seq<Bucket<K, V>>)
    requires ValidBuckets(h, buckets)
    ensures Rehashed(h, [], seq<Bucket<K, V>>(2 * |buckets|, _ => Unused), map[])
    ensures ListBlocks(seq<Bucket<K, V>>(2 * |buckets|, _ => Unused)) == multiset{}
    ensures 0 < 2 * |buckets| && FilledBy(seq<Bucket<K, V>>(2 * |buckets|, _ => Unused), [])
  {
    var n: nat :| |buckets| == Pow2(n);
    assert 2 * |buckets| == Pow2(n + 1);
    RehashStart<K, V, I>(h, 2 * |buckets|);
    FilledByNone<K, V>(2 * |buckets|);
    UnusedIsEmpty<K, V>(2 * |buckets|);
  }

  /** Old bucket array out, new one in; the entries stay. */
  lemma Exchange(
    r: multiset<Block>, i: multiset<Block>, e: multiset<Block>,
    t: multiset<Block>, l: multiset<Block>, t': multiset<Block>, l': multiset<Block>)
    ensures r + (i + t + l + e) + t' + l' == (r + i + e) + t' + l' + t + l
    ensures r + (i + t' + l' + e) == (r + i + e) + t' + l'
  {
  }

  lemma RemoveLemma<K, V, I(!new)>(
    h: Hasher<K, I>, buckets: seq<Bucket<K, V>>, m: map<I, Entry<K, V>>, b: nat, i: nat, x: Bucket<K, V>)
    requires ValidBuckets(h, buckets) && Lists(h, Flat(buckets), m) && b < |buckets| && i < |buckets[b].Items()|
    requires x.Items() == Without(buckets[b].Items(), i) && x == Used(buckets[b].list.(items := x.Items()))
    ensures var e, after := buckets[b].Items()[i], buckets[b := x];
            && ValidBuckets(h, after) && Lists(h, Flat(after), m - {h.Id(e)}) && |m - {h.Id(e)}| == |m| - 1
            && ListBlocks(after) == ListBlocks(buckets)
            && EntryBlocks(Flat(buckets)) == EntryBlocks(Flat(after)) + EntryBlocks([e])
            && Removed(h, Flat(buckets), Flat(after), h.Id(e))
  {
    var items, e := buckets[b].Items(), buckets[b].Items()[i];
    var pre, post := Flat(buckets[..b]) + items[..i], items[i + 1..] + Flat(buckets[b + 1..]);
    assert Flat(buckets) == pre + [e] + post && Flat(buckets[b := x]) == pre + post by {
      RemoveFlat(buckets, b, i, x, pre, post);
    }
    assert h.Id(e) in m by {
      assert (pre + [e] + post)[|pre|] == e;
    }
    hide *;
    RemovePlaced(h, buckets, b, i, x);
    ListsRemove(h, pre, post, m, e);
    RemovedOnce(h, pre, post, m, e);
    EntryBlocksInsert(pre, post, e);
    SameLists(buckets, b, x);
    SizeWithout(m, h.Id(e));
  }

  lemma SizeWithout<I, E>(m: map<I, E>, k: I)
    requires k in m
    ensures |m - {k}| == |m| - 1
  {
    assert m.Keys == (m - {k}).Keys + {k};
  }

  lemma SameLists<K, V>(buckets: seq<Bucket<K, V>>, b: nat, x: Bucket<K, V>)
    requires b < |buckets| && buckets[b].Used? && x == Used(buckets[b].list.(items := x.Items()))
    ensures ListBlocks(buckets[b := x]) == ListBlocks(buckets)
  {
    hide ListBlocks;
    ListBlocksSplit(buckets, b);
    ListBlocksUpdate(buckets, b, x);
  }

  lemma RemoveFlat<K, V>(
    buckets: seq<Bucket<K, V>>, b: nat, i: nat, x: Bucket<K, V>, pre: seq<Entry<K, V>>, post: seq<Entry<K, V>>)
    requires b < |buckets| && i < |buckets[b].Items()| && x.Items() == Without(buckets[b].Items(), i)
    requires pre == Flat(buckets[..b]) + buckets[b].Items()[..i]
    requires post == buckets[b].Items()[i + 1..] + Flat(buckets[b + 1..])
    ensures Flat(buckets) == pre + [buckets[b].Items()[i]] + post
    ensures Flat(buckets[b := x]) == pre + post
  {
    hide Flat, Bucket.Items;
    FlatSplit(buckets, b);
    FlatUpdate(buckets, b, x);
    Around(Flat(buckets[..b]), buckets[b].Items(), Flat(buckets[b + 1..]), i);
  }

  /** The surroundings of element `i` of the middle part. */
  lemma Around<E>(a: seq<E>, items: seq<E>, b: seq<E>, i: nat)
    requires i < |items|
    ensures a + items + b == (a + items[..i]) + [items[i]] + (items[i + 1..] + b)
    ensures a + Without(items, i) + b == (a + items[..i]) + (items[i + 1..] + b)
  {
    SplitAt(items, i);
    Rebracket(a, items[..i], [items[i]], items[i + 1..], b);
  }

  lemma Rebracket<E>(a: seq<E>, c: seq<E>, d: seq<E>, e: seq<E>, b: seq<E>)
    ensures a + (c + d + e) + b == (a + c) + d + (e + b)
    ensures a + (c + e) + b == (a + c) + (e + b)
  {
  }

  lemma SameAround<E>(s: seq<E>, i: nat, x: E)
    requires i < |s|
    ensures s[i := x][..i] == s[..i] && s[i := x][i + 1..] == s[i + 1..] && s[i := x][i] == x
  {
  }

  lemma RemovePlaced<K, V, I(!new)>(h: Hasher<K, I>, buckets: seq<Bucket<K, V>>, b: nat, i: nat, x: Bucket<K, V>)
    requires ValidBuckets(h, buckets) && b < |buckets| && i < |buckets[b].Items()|
    requires x.Items() == Without(buckets[b].Items(), i) && x == Used(buckets[b].list.(items := x.Items()))
    ensures ValidBuckets(h, buckets[b := x])
  {
    var after := buckets[b := x];
    forall c, j | 0 <= c < |after| && 0 <= j < |after[c].Items()|
      ensures PlacedAt(h, after[c].Items()[j], |after|, c)
    {
      assert PlacedAt(h, buckets[c].Items()[if c == b && i <= j then j + 1 else j], |buckets|, c);
    }
  }

  lemma RemovedOnce<K, V, I(!new)>(
    h: Hasher<K, I>, pre: seq<Entry<K, V>>, post: seq<Entry<K, V>>, m: map<I, Entry<K, V>>, e: Entry<K, V>)
    requires Lists(h, pre + [e] + post, m)
    ensures Removed(h, pre + [e] + post, pre + post, h.Id(e))
  {
    var all := pre + [e] + post;
    assert all[|pre|] == e;
    forall j | 0 <= j < |all| && h.Id(all[j]) == h.Id(e) ensures pre + post == Without(all, j) {
      assert j == |pre|;
      assert all[..j] == pre && all[j + 1..] == post;
    }
  }

  // ----- what one bucket change does to the whole

  lemma BucketValid<K, V, I(!new)>(h: Hasher<K, I>, buckets: seq<Bucket<K, V>>, b: nat)
    requires ValidBuckets(h, buckets) && b < |buckets|
    ensures buckets[b].Valid()
  {
  }

  lemma OverwriteFlat<K, V>(
    buckets: seq<Bucket<K, V>>, b: nat, i: nat, x: Bucket<K, V>, pre: seq<Entry<K, V>>, post: seq<Entry<K, V>>)
    requires b < |buckets| && i < |buckets[b].Items()| == |x.Items()|
    requires x.Items() == buckets[b].Items()[i := x.Items()[i]]
    requires pre == Flat(buckets[..b]) + buckets[b].Items()[..i]
    requires post == buckets[b].Items()[i + 1..] + Flat(buckets[b + 1..])
    ensures Flat(buckets) == pre + [buckets[b].Items()[i]] + post
    ensures Flat(buckets[b := x]) == pre + [x.Items()[i]] + post
  {
    hide Flat, Bucket.Items;
    FlatSplit(buckets, b);
    FlatUpdate(buckets, b, x);
    Around(Flat(buckets[..b]), buckets[b].Items(), Flat(buckets[b + 1..]), i);
    Around(Flat(buckets[..b]), x.Items(), Flat(buckets[b + 1..]), i);
    SameAround(buckets[b].Items(), i, x.Items()[i]);
  }

  lemma OverwritePlaced<K, V, I(!new)>(
    h: Hasher<K, I>, buckets: seq<Bucket<K, V>>, b: nat, i: nat, value: V, x: Bucket<K, V>)
    requires ValidBuckets(h, buckets) && b < |buckets| && i < |buckets[b].Items()|
    requires x.Items() == buckets[b].Items()[i := buckets[b].Items()[i].(value := value)]
    requires x == Used(buckets[b].list.(items := x.Items()))
    ensures ValidBuckets(h, buckets[b := x])
  {
    var after := buckets[b := x];
    forall c, j | 0 <= c < |after| && 0 <= j < |after[c].Items()|
      ensures PlacedAt(h, after[c].Items()[j], |after|, c)
    {
      assert PlacedAt(h, buckets[c].Items()[j], |buckets|, c);
    }
  }

  lemma OverwriteLemma<K, V, I(!new)>(
    h: Hasher<K, I>, buckets: seq<Bucket<K, V>>, m: map<I, Entry<K, V>>, b: nat, i: nat,
    e': Entry<K, V>, x: Bucket<K, V>)
    requires ValidBuckets(h, buckets) && Lists(h, Flat(buckets), m) && b < |buckets| && i < |buckets[b].Items()|
    requires e' == buckets[b].Items()[i].(value := e'.value)
    requires x.Items() == buckets[b].Items()[i := e'] && x == Used(buckets[b].list.(items := x.Items()))
    ensures ValidBuckets(h, buckets[b := x])
    ensures Lists(h, Flat(buckets[b := x]), m[h.Id(e') := e']) && |m[h.Id(e') := e']| == |m|
    ensures ListBlocks(buckets[b := x]) == ListBlocks(buckets)
    ensures EntryBlocks(Flat(buckets[b := x])) == EntryBlocks(Flat(buckets))
    ensures h.Id(e') in m && m[h.Id(e')] == buckets[b].Items()[i]
  {
    var items, e := buckets[b].Items(), buckets[b].Items()[i];
    var pre, post := Flat(buckets[..b]) + items[..i], items[i + 1..] + Flat(buckets[b + 1..]);
    assert h.Id(e') in m && m[h.Id(e')] == e && Lists(h, pre + [e] + post, m) by {
      OverwriteFlat(buckets, b, i, x, pre, post);
      assert (pre + [e] + post)[|pre|] == e;
    }
    hide *;
    OverwritePlaced(h, buckets, b, i, e'.value, x);
    OverwriteFlat(buckets, b, i, x, pre, post);
    ListsReplace(h, pre, post, m, e, e');
    EntryBlocksInsert(pre, post, e);
    EntryBlocksInsert(pre, post, e');
    SameBlocks(e, e');
    SameLists(buckets, b, x);
    assert m[h.Id(e') := e'].Keys == m.Keys;
  }

  lemma SameBlocks<K, V>(e: Entry<K, V>, e': Entry<K, V>)
    requires e' == e.(value := e'.value)
    ensures EntryBlocks([e]) == EntryBlocks([e'])
  {
    EntryBlocksOne(e);
    EntryBlocksOne(e');
  }

  /** The same blocks in the order in which the callee wants them. */
  lemma Regroup(r: multiset<Block>, i: multiset<Block>, t: multiset<Block>, l: multiset<Block>, e: multiset<Block>,
                x: multiset<Block>)
    ensures r + (i + t + l + e) + x == (r + i + t + e) + x + l
    ensures r + (i + t + l + (e + x)) == (r + i + t + e) + x + l
  {
  }

  lemma InsertLemma<K, V, I(!new)>(
    h: Hasher<K, I>, buckets: seq<Bucket<K, V>>, m: map<I, Entry<K, V>>, e: Entry<K, V>, x: Bucket<K, V>)
    requires ValidBuckets(h, buckets) && Lists(h, Flat(buckets), m) && h.Id(e) !in m && e.hash == h.hash(h.Id(e))
    requires 0 < |buckets| && x.Valid() && x.Items() == buckets[e.hash % |buckets|].Items() + [e]
    ensures var after := buckets[e.hash % |buckets| := x];
            && ValidBuckets(h, after) && Lists(h, Flat(after), m[h.Id(e) := e]) && |m[h.Id(e) := e]| == |m| + 1
            && EntryBlocks(Flat(after)) == EntryBlocks(Flat(buckets)) + EntryBlocks([e])
  {
    hide EntryBlocks, Lists, Flat;
    var b := e.hash % |buckets|;
    var pre, post := Flat(buckets[..b]) + buckets[b].Items(), Flat(buckets[b + 1..]);
    AppendPlaced(h, buckets, e, x);
    hide ValidBuckets;
    AppendFlat(buckets, b, e, x);
    ListsInsert(h, pre, post, m, e);
    EntryBlocksInsert(pre, post, e);
    assert m[h.Id(e) := e].Keys == m.Keys + {h.Id(e)};
  }
}
