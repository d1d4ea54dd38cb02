/** Whole runs of the hash map: any sequence of calls, under any pattern of allocation failures,
    acts on a plain finite map.
 */
module HashMapRuns {
  import opened Numbers
  import opened Wrappers
  import opened Allocation
  import opened Buckets
  import opened HashMaps
  import opened PowersOfTwo

  datatype Op<K, V> = Set(key: K, value: V) | Unset(key: K) | Get(key: K) | KeyExists(key: K)

  datatype Reply<V> = Done | NoMemory | Found(value: V) | Missing | Yes | No

  /** What a caller can see of the map: per identity, the key as first stored and the value. */
  ghost function Contents<K, V, I>(m: map<I, Entry<K, V>>): map<I, (K, V)> {
    map k | k in m :: (m[k].key, m[k].value)
  }

  /** One call on a finite map.  Only inserting a new key may fail, and then nothing changes. */
  ghost predicate Acts<K, V, I(!new)>(
    h: Hasher<K, I>, before: map<I, (K, V)>, op: Op<K, V>, reply: Reply<V>, after: map<I, (K, V)>)
  {
    var k := h.ident(op.key);
    match op
    case Set(key, value) =>
      || (reply == Done && after == before[k := (if k in before then before[k].0 else key, value)])
      || (reply == NoMemory && k !in before && after == before)
    case Unset(_) => reply == Done && after == before - {k}
    case Get(_) => after == before && reply == if k in before then Found(before[k].1) else Missing
    case KeyExists(_) => after == before && reply == if k in before then Yes else No
  }

  /** What is known of the map between two calls: its contents, its capacity, and how many requests
      have been made so far. */
  datatype Snapshot<!K, !V, !I> = Snapshot(contents: map<I, (K, V)>, capacity: nat, requests: nat)

  /** One call, between two snapshots.  Only a `set` makes requests; that it reports lack of memory
      comes from a request of this very call; if none of them fails, it doubles a full map. */
  ghost predicate Happens<K, V, I(!new)>(
    h: Hasher<K, I>, alloc: Allocator, s: Snapshot<K, V, I>, op: Op<K, V>, reply: Reply<V>, t: Snapshot<K, V, I>)
  {
    && Acts(h, s.contents, op, reply, t.contents)
    && s.requests <= t.requests && s.capacity <= t.capacity
    && (reply == NoMemory ==> !alloc.NoFailure(s.requests, t.requests))
    && (!op.Set? ==> t.capacity == s.capacity && t.requests == s.requests)
    && (op.Set? && alloc.NoFailure(s.requests, t.requests) ==>
          t.capacity == if |t.contents| >= 3 * s.capacity / 4 then 2 * s.capacity else s.capacity)
  }

  /** A run: the snapshots before the first call and after each call. */
  ghost predicate IsRun<K, V, I(!new)>(
    h: Hasher<K, I>, alloc: Allocator, ops: seq<Op<K, V>>, replies: seq<Reply<V>>, states: seq<Snapshot<K, V, I>>)
  {
    && |replies| == |ops| && |states| == |ops| + 1
    && forall i :: 0 <= i < |ops| ==> Happens(h, alloc, states[i], ops[i], replies[i], states[i + 1])
  }

  /** A run is known from the contents that it starts with and from which of its calls report lack of memory. */
  lemma {:induction false} RunsAgree<K, V, I(!new)>(
    h: Hasher<K, I>, alloc: Allocator, ops: seq<Op<K, V>>,
    replies: seq<Reply<V>>, states: seq<Snapshot<K, V, I>>,
    replies': seq<Reply<V>>, states': seq<Snapshot<K, V, I>>, n: nat)
    requires IsRun(h, alloc, ops, replies, states) && IsRun(h, alloc, ops, replies', states') && n <= |ops|
    requires states[0].contents == states'[0].contents
    requires forall i :: 0 <= i < n ==> (replies[i] == NoMemory <==> replies'[i] == NoMemory)
    ensures replies[..n] == replies'[..n] && states[n].contents == states'[n].contents
  {
    if n > 0 {
      RunsAgree(h, alloc, ops, replies, states, replies', states', n - 1);
      hide Acts;
      CallsAgree(h, states[n - 1].contents, ops[n - 1], replies[n - 1], states[n].contents,
                 replies'[n - 1], states'[n].contents);
      assert replies[..n] == replies[..n - 1] + [replies[n - 1]];
      assert replies'[..n] == replies'[..n - 1] + [replies'[n - 1]];
    }
  }

  lemma CallsAgree<K, V, I(!new)>(
    h: Hasher<K, I>, before: map<I, (K, V)>, op: Op<K, V>,
    reply: Reply<V>, after: map<I, (K, V)>, reply': Reply<V>, after': map<I, (K, V)>)
    requires Acts(h, before, op, reply, after) && Acts(h, before, op, reply', after')
    requires reply == NoMemory <==> reply' == NoMemory
    ensures reply == reply' && after == after'
  {
  }

  // ----- the load at every point of a run

  /** Below the load factor 0.75. */
  predicate Below<K, V, I>(s: Snapshot<K, V, I>) {
    |s.contents| < 3 * s.capacity / 4
  }

  predicate AtMost<K, V, I>(s: Snapshot<K, V, I>) {
    4 * |s.contents| <= 3 * s.capacity
  }

  function Sets<K, V>(ops: seq<Op<K, V>>): nat {
    if ops == [] then 0 else Sets(ops[..|ops| - 1]) + if ops[|ops| - 1].Set? then 1 else 0
  }

  /** From two buckets on, one doubling at most restores the bound, and removing keeps it. */
  lemma LoadStep<K, V, I(!new)>(
    h: Hasher<K, I>, alloc: Allocator, s: Snapshot<K, V, I>, op: Op<K, V>, reply: Reply<V>, t: Snapshot<K, V, I>)
    requires Happens(h, alloc, s, op, reply, t) && alloc.NoFailure(s.requests, t.requests)
    ensures |t.contents| <= |s.contents| + (if op.Set? then 1 else 0)
    ensures 2 <= s.capacity && Below(s) ==> Below(t)
    ensures 2 <= s.capacity && AtMost(s) ==> AtMost(t) && (op.Set? ==> Below(t))
    ensures s.capacity == 1 && s.contents == map[] ==>
              if op.Set? then t.capacity == 2 && AtMost(t) else t.capacity == 1 && t.contents == map[]
  {
    SizeStep(h, s.contents, op, reply, t.contents);
    hide Acts;
  }

  lemma SizeStep<K, V, I(!new)>(
    h: Hasher<K, I>, before: map<I, (K, V)>, op: Op<K, V>, reply: Reply<V>, after: map<I, (K, V)>)
    requires Acts(h, before, op, reply, after)
    ensures |after| <= |before| + (if op.Set? then 1 else 0)
    ensures op.Set? && before == map[] && reply != NoMemory ==> |after| == 1
    ensures !op.Set? && before == map[] ==> after == map[]
  {
    var k := h.ident(op.key);
    if op.Set? && reply != NoMemory {
      SizeUpdated(before, k, after[k]);
    } else if op.Unset? {
      SizeRemoved(before, k);
    }
  }

  lemma SizeUpdated<I, E>(m: map<I, E>, k: I, e: E)
    ensures |m[k := e]| == |m| + if k in m then 0 else 1
  {
    assert m[k := e].Keys == m.Keys + {k};
  }

  lemma SizeRemoved<I, E>(m: map<I, E>, k: I)
    ensures |m - {k}| <= |m|
  {
    assert m.Keys == (m - {k}).Keys + if k in m then {k} else {};
  }

  /** While no request fails: a map with two buckets or more, once below the bound, is below it after
      every call; a new map with one bucket is at most at the bound from the first `set` on and
      below it from the second `set` on. */
  lemma {:induction false} LoadOverRun<K, V, I(!new)>(
    h: Hasher<K, I>, alloc: Allocator, ops: seq<Op<K, V>>, replies: seq<Reply<V>>,
    states: seq<Snapshot<K, V, I>>, n: nat)
    requires IsRun(h, alloc, ops, replies, states) && n <= |ops|
    requires alloc.NoFailure(states[0].requests, states[n].requests)
    ensures Bounded(states[0], states[n], Sets(ops[..n]))
  {
    hide Happens, Bounded;
    if n > 0 {
      var s, t := states[n - 1], states[n];
      RequestsGrow(h, alloc, ops, replies, states, n - 1);
      RequestsOnce(h, alloc, s, ops[n - 1], replies[n - 1], t);
      LoadOverRun(h, alloc, ops, replies, states, n - 1);
      BoundedStep(h, alloc, states[0], s, ops[n - 1], replies[n - 1], t, Sets(ops[..n - 1]));
      assert ops[..n][..n - 1] == ops[..n - 1];
    } else {
      BoundedFirst(states[0]);
    }
  }

  ghost predicate Bounded<K, V, I>(first: Snapshot<K, V, I>, s: Snapshot<K, V, I>, sets: nat) {
    && first.capacity <= s.capacity
    && (2 <= first.capacity && Below(first) ==> Below(s))
    && (first.capacity == 1 && first.contents == map[] ==> SmallLoad(s, sets))
  }

  lemma BoundedFirst<K, V, I>(first: Snapshot<K, V, I>)
    ensures Bounded(first, first, 0)
  {
  }

  lemma BoundedStep<K, V, I(!new)>(
    h: Hasher<K, I>, alloc: Allocator, first: Snapshot<K, V, I>, s: Snapshot<K, V, I>, op: Op<K, V>, reply: Reply<V>,
    t: Snapshot<K, V, I>, sets: nat)
    requires Happens(h, alloc, s, op, reply, t) && alloc.NoFailure(s.requests, t.requests) && Bounded(first, s, sets)
    ensures Bounded(first, t, sets + if op.Set? then 1 else 0)
  {
    LoadStep(h, alloc, s, op, reply, t);
    hide Acts;
  }

  lemma RequestsOnce<K, V, I(!new)>(
    h: Hasher<K, I>, alloc: Allocator, s: Snapshot<K, V, I>, op: Op<K, V>, reply: Reply<V>, t: Snapshot<K, V, I>)
    requires Happens(h, alloc, s, op, reply, t)
    ensures s.requests <= t.requests
  {
  }

  lemma {:induction false} RequestsGrow<K, V, I(!new)>(
    h: Hasher<K, I>, alloc: Allocator, ops: seq<Op<K, V>>, replies: seq<Reply<V>>,
    states: seq<Snapshot<K, V, I>>, n: nat)
    requires IsRun(h, alloc, ops, replies, states) && n <= |ops|
    ensures states[0].requests <= states[n].requests
  {
    if n > 0 {
      RequestsGrow(h, alloc, ops, replies, states, n - 1);
      assert Happens(h, alloc, states[n - 1], ops[n - 1], replies[n - 1], states[n]);
    }
  }

  /** A map that began with one bucket, after this many `set`s. */
  predicate SmallLoad<K, V, I>(s: Snapshot<K, V, I>, sets: nat) {
    if sets == 0 then s.capacity == 1 && s.contents == map[]
    else 2 <= s.capacity && AtMost(s) && (sets >= 2 ==> Below(s))
  }

  // ----- the calls

  ghost function Now<K, V, I(!new)>(hm: HashMap<K, V, I>, alloc: Allocator): Snapshot<K, V, I>
    reads hm, alloc
  {
    Snapshot(Contents(hm.m), |hm.buckets|, alloc.calls)
  }

  lemma ContentsSize<K, V, I>(m: map<I, Entry<K, V>>)
    ensures |Contents(m)| == |m|
  {
    assert Contents(m).Keys == m.Keys;
  }

  /** `NoMemory` is the reply exactly when a request for the new entry fails. */
  method Call<K, V, I(!new, ==)>(hm: HashMap<K, V, I>, op: Op<K, V>, alloc: Allocator, ghost rest: multiset<Block>)
    returns (reply: Reply<V>)
    requires hm.Valid() && alloc.Valid() && alloc.live == rest + hm.Owned()
    modifies hm, alloc
    ensures hm.Valid() && alloc.Valid() && alloc.live == rest + hm.Owned()
    ensures Happens(hm.h, alloc, old(Now(hm, alloc)), op, reply, Now(hm, alloc))
    ensures reply == NoMemory <==> op.Set? && old(hm.StoreFails(hm.h.ident(op.key), alloc.fails, alloc.calls))
  {
    hide HashMap.Valid, HashMap.Owned, HashMap.StoreFails, Happens, Acts, Contents;
    ghost var before := Now(hm, alloc);
    ActsQuietly(hm.h, hm.m, op.key);
    match op {
      case Set(key, value) =>
        reply := CallSet(hm, key, value, alloc, rest);
      case Unset(key) =>
        hm.Unset(key, alloc, rest);
        reply := Done;
        HappensQuietly(hm.h, alloc, before, op, reply, Now(hm, alloc));
      case Get(key) =>
        var ret, data := hm.Get(key);
        reply := if ret == Ok then Found(data.value) else Missing;
        HappensQuietly(hm.h, alloc, before, op, reply, before);
      case KeyExists(key) =>
        var there := hm.KeyExists(key);
        reply := if there then Yes else No;
        HappensQuietly(hm.h, alloc, before, op, reply, before);
    }
  }

  /** The calls that make no request. */
  lemma ActsQuietly<K, V, I(!new)>(h: Hasher<K, I>, m: map<I, Entry<K, V>>, key: K)
    ensures Acts(h, Contents(m), Unset(key), Done, Contents(m - {h.ident(key)}))
    ensures var k := h.ident(key);
            && Acts(h, Contents(m), Get(key), if k in m then Found(m[k].value) else Missing, Contents(m))
            && Acts(h, Contents(m), KeyExists(key), if k in m then Yes else No, Contents(m))
  {
  }

  lemma HappensQuietly<K, V, I(!new)>(
    h: Hasher<K, I>, alloc: Allocator, s: Snapshot<K, V, I>, op: Op<K, V>, reply: Reply<V>, t: Snapshot<K, V, I>)
    requires !op.Set? && reply != NoMemory && Acts(h, s.contents, op, reply, t.contents)
    requires t.capacity == s.capacity && t.requests == s.requests
    ensures Happens(h, alloc, s, op, reply, t)
  {
    hide Acts;
  }

  method CallSet<K, V, I(!new, ==)>(hm: HashMap<K, V, I>, key: K, value: V, alloc: Allocator,
                                    ghost rest: multiset<Block>)
    returns (reply: Reply<V>)
    requires hm.Valid() && alloc.Valid() && alloc.live == rest + hm.Owned()
    modifies hm, alloc
    ensures hm.Valid() && alloc.Valid() && alloc.live == rest + hm.Owned()
    ensures Happens(hm.h, alloc, old(Now(hm, alloc)), Set(key, value), reply, Now(hm, alloc))
    ensures reply == NoMemory <==> old(hm.StoreFails(hm.h.ident(key), alloc.fails, alloc.calls))
  {
    hide HashMap.Valid, HashMap.Owned, HashMap.StoreFails, HashMap.StoreCalls, HashMap.BelowLoad;
    hide HashMap.GrowCalls, Allocator.NoFailure, Acts, Contents;
    ghost var before, first, stored := hm.m, alloc.calls, alloc.calls + hm.StoreCalls(hm.h.ident(key));
    var ret := hm.Set(key, value, alloc, rest);
    ContentsSize(hm.m);
    SizeOf(hm);
    FailedLater(alloc, first, stored, if ret == Ok then alloc.calls else stored);
    reply := if ret == Ok then Done else NoMemory;
    SetActs(hm.h, before, key, value, hm.m, reply);
    hide Acts, Contents;
  }

  lemma SetActs<K, V, I(!new)>(
    h: Hasher<K, I>, before: map<I, Entry<K, V>>, key: K, value: V, after: map<I, Entry<K, V>>, reply: Reply<V>)
    requires reply == Done || (reply == NoMemory && after == before && h.ident(key) !in before)
    requires reply == Done ==>
               && h.ident(key) in after && after == before[h.ident(key) := after[h.ident(key)]]
               && (h.ident(key) !in before ==> after[h.ident(key)].key == key && after[h.ident(key)].value == value)
               && (h.ident(key) in before ==> after[h.ident(key)] == before[h.ident(key)].(value := value))
    ensures Acts(h, Contents(before), Set(key, value), reply, Contents(after))
  {
  }

  /** Any calls on a live map: every reply is that of the finite map. */
  method RunCalls<K, V, I(!new, ==)>(hm: HashMap<K, V, I>, ops: seq<Op<K, V>>, alloc: Allocator,
                                     ghost rest: multiset<Block>)
    returns (replies: seq<Reply<V>>, ghost states: seq<Snapshot<K, V, I>>)
    requires hm.Valid() && alloc.Valid() && alloc.live == rest + hm.Owned()
    modifies hm, alloc
    ensures hm.Valid() && alloc.Valid() && alloc.live == rest + hm.Owned()
    ensures IsRun(hm.h, alloc, ops, replies, states)
    ensures states[0] == old(Now(hm, alloc)) && states[|ops|] == Now(hm, alloc)
  {
    hide HashMap.Valid, HashMap.Owned, HashMap.StoreFails, Happens, Now;
    replies, states := [], [Now(hm, alloc)];
    for i := 0 to |ops|
      invariant hm.Valid() && alloc.Valid() && alloc.live == rest + hm.Owned()
      invariant |replies| == i && |states| == i + 1 && states[0] == old(Now(hm, alloc)) && states[i] == Now(hm, alloc)
      invariant forall j :: 0 <= j < i ==> Happens(hm.h, alloc, states[j], ops[j], replies[j], states[j + 1])
    {
      var reply := Call(hm, ops[i], alloc, rest);
      replies, states := replies + [reply], states + [Now(hm, alloc)];
    }
  }

  /** The load at every point of a life that begins with `init`. */
  ghost predicate Loaded<K, V, I>(
    initialCapacity: nat, alloc: Allocator, ops: seq<Op<K, V>>, states: seq<Snapshot<K, V, I>>)
    requires |states| == |ops| + 1
  {
    forall n :: 0 <= n <= |ops| && alloc.NoFailure(states[0].requests, states[n].requests) ==>
                  var entries, capacity, sets := |states[n].contents|, states[n].capacity, Sets(ops[..n]);
                  if 2 <= initialCapacity <= 0x8000_0000_0000_0000 then entries < 3 * capacity / 4
                  else if sets == 0 then capacity == 1 && entries == 0
                  else capacity >= 2 && 4 * entries <= 3 * capacity && (sets >= 2 ==> entries < 3 * capacity / 4)
  }

  lemma LifeIsLoaded<K, V, I(!new)>(
    initialCapacity: nat, h: Hasher<K, I>, alloc: Allocator, ops: seq<Op<K, V>>, replies: seq<Reply<V>>,
    states: seq<Snapshot<K, V, I>>)
    requires IsRun(h, alloc, ops, replies, states) && states[0].contents == map[] && 1 <= initialCapacity
    requires initialCapacity <= SIZE_MODULUS / 2 ==> LeastPowerFrom(initialCapacity, states[0].capacity)
    requires initialCapacity > SIZE_MODULUS / 2 ==> states[0].capacity == 1
    ensures Loaded(initialCapacity, alloc, ops, states)
  {
    assert IsPow2(1) by { assert Pow2(0) == 1; }
    forall n | 0 <= n <= |ops| && alloc.NoFailure(states[0].requests, states[n].requests)
      ensures if 2 <= initialCapacity <= SIZE_MODULUS / 2 then Below(states[n])
              else SmallLoad(states[n], Sets(ops[..n]))
    {
      LoadOverRun(h, alloc, ops, replies, states, n);
    }
  }

  lemma EmptyContents<K, V, I>()
    ensures Contents<K, V, I>(map[]) == map[]
  {
  }

  /** From `init` through any calls to `fini`: the replies are those of a finite map that starts
      empty, the load is bounded after every call, and afterwards exactly the blocks of before are
      live. */
  method WholeLife<K, V, I(!new, ==)>(initialCapacity: nat, h: Hasher<K, I>, ops: seq<Op<K, V>>, alloc: Allocator)
    returns (ret: Ret, replies: seq<Reply<V>>, ghost states: seq<Snapshot<K, V, I>>)
    requires alloc.Valid() && initialCapacity < SIZE_MODULUS
    modifies alloc
    ensures alloc.Valid() && alloc.live == old(alloc.live)
    ensures ret == BadAlloc <==>
            1 <= initialCapacity && (alloc.fails(old(alloc.calls)) || alloc.fails(old(alloc.calls) + 1))
    ensures ret != Ok ==> ret == (if initialCapacity < 1 then InvalidArgument else BadAlloc) && replies == []
    ensures ret == Ok ==> IsRun(h, alloc, ops, replies, states) && Loaded(initialCapacity, alloc, ops, states)
    ensures ret == Ok ==> states[0].contents == map[] && states[0].requests == old(alloc.calls) + 2
    ensures ret == Ok ==> states[|ops|].requests == alloc.calls
  {
    hide HashMap.Valid, HashMap.Owned, HashMap.Bound, Allocator.Valid, IsRun, Contents, LeastPowerFrom, Loaded;
    replies, states := [], [];
    var hm: HashMap?<K, V, I>;
    ret, hm := HashMap<K, V, I>.Init(initialCapacity, h, alloc);
    if hm == null {
      return;
    }
    EmptyContents<K, V, I>();
    replies, states := RunCalls(hm, ops, alloc, old(alloc.live));
    LifeIsLoaded(initialCapacity, h, alloc, ops, replies, states);
    hm.Fini(alloc, old(alloc.live));
  }
}
