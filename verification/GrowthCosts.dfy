/** How many requests the growth of src/hash_map.c makes, as a function of the hashes of its entries:
    what the lists of the larger array cost while they are filled.
 */
module GrowthCosts {
  import opened Numbers
  import opened ArrayLists
  import opened Buckets
  import opened PowersOfTwo

  // ----- one list

  /** The requests for the entry that follows `k` others in a list that began with the first of them:
      two for the list itself, one whenever it doubles. */
  ghost function EntryCost(k: nat): nat {
    if k == 0 then 2 else if k >= 2 && IsPow2(k) then 1 else 0
  }

  /** The capacity after `k` entries. */
  function CapacityFor(k: nat): nat {
    if k <= 2 then 2
    else if CapacityFor(k - 1) == k - 1 then 2 * (k - 1)
    else CapacityFor(k - 1)
  }

  lemma {:induction false} CapacityBounds(k: nat)
    ensures k <= CapacityFor(k) && IsPow2(CapacityFor(k)) && (k >= 2 ==> CapacityFor(k) < 2 * k)
  {
    if k <= 2 {
      assert Pow2(1) == 2;
    } else {
      CapacityBounds(k - 1);
      if CapacityFor(k - 1) == k - 1 {
        var n: nat :| k - 1 == Pow2(n);
        assert 2 * (k - 1) == Pow2(n + 1);
      }
    }
  }

  /** A list that began with two places is full exactly after 2, 4, 8, .. entries. */
  lemma FullAtPowers(k: nat)
    requires 1 <= k
    ensures CapacityFor(k) == k <==> k >= 2 && IsPow2(k)
  {
    CapacityBounds(k);
    if k >= 2 && IsPow2(k) {
      var n: nat :| k == Pow2(n);
      var m: nat :| CapacityFor(k) == Pow2(m);
      if n < m {
        Pow2Monotone(n + 1, m);
      } else {
        Pow2Monotone(m, n);
      }
    }
  }

  // ----- all lists of the larger array

  function Hashes<K, V>(items: seq<Entry<K, V>>): seq<nat> {
    seq(|items|, i requires 0 <= i < |items| => items[i].hash)
  }

  /** How many of the hashes select bucket `b`. */
  function Landing(hashes: seq<nat>, capacity: nat, b: nat): nat
    requires 0 < capacity
  {
    if hashes == [] then 0
    else
      var last := hashes[|hashes| - 1];
      Landing(hashes[..|hashes| - 1], capacity, b) + if last % capacity == b then 1 else 0
  }

  /** The requests of filling an empty array of this capacity. */
  ghost function FillCalls(hashes: seq<nat>, capacity: nat): nat
    requires 0 < capacity
  {
    if hashes == [] then 0
    else
      var init, last := hashes[..|hashes| - 1], hashes[|hashes| - 1];
      FillCalls(init, capacity) + EntryCost(Landing(init, capacity, last % capacity))
  }

  lemma LandingSnoc(hashes: seq<nat>, h: nat, capacity: nat, b: nat)
    requires 0 < capacity
    ensures Landing(hashes + [h], capacity, b) == Landing(hashes, capacity, b) + if h % capacity == b then 1 else 0
  {
    assert (hashes + [h])[..|hashes|] == hashes;
  }

  lemma FillSnoc(hashes: seq<nat>, h: nat, capacity: nat)
    requires 0 < capacity
    ensures FillCalls(hashes + [h], capacity) ==
            FillCalls(hashes, capacity) + EntryCost(Landing(hashes, capacity, h % capacity))
  {
    assert (hashes + [h])[..|hashes|] == hashes;
  }

  /** The order of the last two does not matter .. */
  lemma FillSwap(hashes: seq<nat>, g: nat, h: nat, capacity: nat)
    requires 0 < capacity
    ensures FillCalls(hashes + [g] + [h], capacity) == FillCalls(hashes + [h] + [g], capacity)
  {
    hide Landing, FillCalls, EntryCost;
    FillSnoc(hashes + [g], h, capacity);
    FillSnoc(hashes, g, capacity);
    FillSnoc(hashes + [h], g, capacity);
    FillSnoc(hashes, h, capacity);
    LandingSnoc(hashes, g, capacity, h % capacity);
    LandingSnoc(hashes, h, capacity, g % capacity);
  }

  /** .. and so one hash may stand anywhere. */
  lemma {:induction false} FillInsert(pre: seq<nat>, h: nat, post: seq<nat>, capacity: nat)
    requires 0 < capacity
    ensures FillCalls(pre + [h] + post, capacity) == FillCalls(pre + post + [h], capacity)
    ensures forall b :: Landing(pre + [h] + post, capacity, b) == Landing(pre + post + [h], capacity, b)
    decreases |post|
  {
    hide FillCalls, EntryCost;
    if post == [] {
      assert pre + [h] + post == pre + [h] == pre + post + [h];
    } else {
      var rest, last := post[..|post| - 1], post[|post| - 1];
      FillInsert(pre, h, rest, capacity);
      LastApart(pre, [h], post);
      FillSnoc(pre + [h] + rest, last, capacity);
      FillSnoc(pre + rest + [h], last, capacity);
      FillSwap(pre + rest, h, last, capacity);
      LandingInsert(pre + [h] + rest, pre + rest, h, last, capacity);
    }
  }

  lemma LastApart(a: seq<nat>, b: seq<nat>, c: seq<nat>)
    requires c != []
    ensures a + b + c == a + b + c[..|c| - 1] + [c[|c| - 1]]
    ensures a + c == a + c[..|c| - 1] + [c[|c| - 1]]
  {
  }

  lemma LandingInsert(s: seq<nat>, t: seq<nat>, h: nat, last: nat, capacity: nat)
    requires 0 < capacity && forall b :: Landing(s, capacity, b) == Landing(t + [h], capacity, b)
    ensures forall b :: Landing(s + [last], capacity, b) == Landing(t + [last] + [h], capacity, b)
  {
    hide Landing;
    forall b ensures Landing(s + [last], capacity, b) == Landing(t + [last] + [h], capacity, b) {
      LandingSnoc(s, last, capacity, b);
      LandingSnoc(t + [last], h, capacity, b);
      LandingSnoc(t, last, capacity, b);
      LandingSnoc(t, h, capacity, b);
    }
  }

  lemma {:induction false} FillMonotone(hashes: seq<nat>, n: nat, capacity: nat)
    requires 0 < capacity && n <= |hashes|
    ensures FillCalls(hashes[..n], capacity) <= FillCalls(hashes, capacity)
    decreases |hashes|
  {
    if n < |hashes| {
      FillMonotone(hashes[..|hashes| - 1], n, capacity);
      assert hashes[..|hashes| - 1][..n] == hashes[..n];
    } else {
      assert hashes[..n] == hashes;
    }
  }

  /** Two requests per entry at most. */
  lemma {:induction false} FillBound(hashes: seq<nat>, capacity: nat)
    requires 0 < capacity
    ensures FillCalls(hashes, capacity) <= 2 * |hashes|
  {
    if hashes != [] {
      FillBound(hashes[..|hashes| - 1], capacity);
    }
  }

  lemma HashesConcat<K, V>(a: seq<Entry<K, V>>, b: seq<Entry<K, V>>)
    ensures Hashes(a + b) == Hashes(a) + Hashes(b)
  {
  }

  lemma HashesSnoc<K, V>(items: seq<Entry<K, V>>, e: Entry<K, V>)
    ensures Hashes(items + [e]) == Hashes(items) + [e.hash]
  {
  }

  // ----- the array while it is filled

  /** A bucket that has taken in `k` entries since it was unused. */
  ghost predicate HasTaken<K, V>(bucket: Bucket<K, V>, k: nat) {
    if k == 0 then bucket.Unused?
    else bucket.Used? && |bucket.list.items| == k && bucket.list.capacity == CapacityFor(k)
  }

  ghost predicate FilledBy<K, V>(buckets: seq<Bucket<K, V>>, hashes: seq<nat>) {
    0 < |buckets| && forall b :: 0 <= b < |buckets| ==> HasTaken(buckets[b], Landing(hashes, |buckets|, b))
  }

  /** The requests that inserting into a bucket makes: two for its first list, one for a full list. */
  function InsertCalls<K, V>(bucket: Bucket<K, V>): nat {
    if bucket.Unused? then 2 else if |bucket.list.items| == bucket.list.capacity then 1 else 0
  }

  /** What one insertion does to a bucket. */
  ghost predicate Takes<K, V>(bucket: Bucket<K, V>, x: Bucket<K, V>) {
    && x.Used? && |x.list.items| == |bucket.Items()| + 1
    && x.list.capacity == (
                            if bucket.Unused? then 2
                            else if |bucket.list.items| == bucket.list.capacity then 2 * bucket.list.capacity
                            else bucket.list.capacity)
  }

  lemma TakesOne<K, V>(bucket: Bucket<K, V>, k: nat, x: Bucket<K, V>)
    requires HasTaken(bucket, k) && Takes(bucket, x)
    ensures HasTaken(x, k + 1)
    ensures EntryCost(k) == InsertCalls(bucket)
  {
    if k > 0 {
      FullAtPowers(k);
      CapacityBounds(k);
    }
  }

  lemma FilledOneMore<K, V>(buckets: seq<Bucket<K, V>>, hashes: seq<nat>, h: nat, x: Bucket<K, V>)
    requires FilledBy(buckets, hashes) && Takes(buckets[h % |buckets|], x)
    ensures FilledBy(buckets[h % |buckets| := x], hashes + [h])
  {
    hide Landing, HasTaken, Takes;
    var after := buckets[h % |buckets| := x];
    forall b | 0 <= b < |after| ensures HasTaken(after[b], Landing(hashes + [h], |after|, b)) {
      LandingSnoc(hashes, h, |after|, b);
      if b == h % |buckets| {
        TakesOne(buckets[b], Landing(hashes, |buckets|, b), x);
      }
    }
  }

  /** The larger array holds the entries moved so far, and `spent` requests were made for that. */
  ghost predicate Paid<K, V>(buckets: seq<Bucket<K, V>>, moved: seq<Entry<K, V>>, spent: nat) {
    FilledBy(buckets, Hashes(moved)) && spent == FillCalls(Hashes(moved), |buckets|)
  }

  lemma PaidOneMore<K, V>(buckets: seq<Bucket<K, V>>, moved: seq<Entry<K, V>>, spent: nat, e: Entry<K, V>,
                          x: Bucket<K, V>)
    requires Paid(buckets, moved, spent) && 0 < |buckets| && Takes(buckets[e.hash % |buckets|], x)
    ensures Paid(buckets[e.hash % |buckets| := x], moved + [e], spent + InsertCalls(buckets[e.hash % |buckets|]))
  {
    hide Landing, FillCalls, Takes, EntryCost;
    HashesSnoc(moved, e);
    FillSnoc(Hashes(moved), e.hash, |buckets|);
    FilledOneMore(buckets, Hashes(moved), e.hash, x);
    var b := e.hash % |buckets|;
    TakesOne(buckets[b], Landing(Hashes(moved), |buckets|, b), x);
  }

  /** Entry `n` of a listing: filling up to it and with it costs no more than filling it all. */
  lemma PaidPart<K, V>(items: seq<Entry<K, V>>, n: nat, capacity: nat)
    requires 0 < capacity && n <= |items|
    ensures FillCalls(Hashes(items[..n]), capacity) <= FillCalls(Hashes(items), capacity)
  {
    assert Hashes(items)[..n] == Hashes(items[..n]);
    FillMonotone(Hashes(items), n, capacity);
  }

  lemma FilledByNone<K, V>(capacity: nat)
    requires 0 < capacity
    ensures FilledBy(seq<Bucket<K, V>>(capacity, _ => Unused), [])
  {
  }
}
