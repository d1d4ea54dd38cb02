/** The contents of the hash map of src/hash_map.c as values: entries, buckets, the listing in
    iteration order, and the finite map a listing stands for.
 */
module Buckets {
  import opened Allocation
  import opened ArrayLists

  /** `self`, `keyBlock` and `valueBlock` are the three allocations behind one stored entry. */
  datatype Entry<K, V> = Entry(hash: nat, key: K, value: V, self: Block, keyBlock: Block, valueBlock: Block)

  /** A bucket has no array list before the first insertion into it. */
  datatype Bucket<K, V> = Unused | Used(list: ListState<Entry<K, V>>) {
    function Items(): seq<Entry<K, V>> {
      if Unused? then [] else list.items
    }

    ghost function Owned(): multiset<Block> {
      if Unused? then multiset{} else list.Owned()
    }

    predicate Valid() {
      Used? ==> list.Valid()
    }
  }

  /** The user's comparison and hash function.  A comparison that is an equivalence, with a hash
      that respects it, is exactly an identity per key and a hash of identities: two keys compare
      equal when their identities are equal. */
  datatype Hasher<!K, !I> = Hasher(ident: K -> I, hash: I -> nat) {
    function Id<V>(e: Entry<K, V>): I { ident(e.key) }
  }

  // ----- listings: all entries, bucket by bucket

  ghost function Join<B, E>(items: B -> seq<E>, s: seq<B>): seq<E> {
    if s == [] then [] else items(s[0]) + Join(items, s[1..])
  }

  lemma {:induction false} JoinConcat<B, E>(items: B -> seq<E>, a: seq<B>, b: seq<B>)
    ensures Join(items, a + b) == Join(items, a) + Join(items, b)
  {
    if a == [] {
      assert a + b == b;
    } else {
      JoinConcat(items, a[1..], b);
      JoinFirst(items, a);
      JoinFirst(items, a + b);
      hide Join;
      assert (a + b)[1..] == a[1..] + b && (a + b)[0] == a[0];
      Bracket(items(a[0]), Join(items, a[1..]), Join(items, b));
    }
  }

  lemma Bracket<E>(a: seq<E>, b: seq<E>, c: seq<E>)
    ensures a + (b + c) == (a + b) + c
  {
  }

  lemma JoinSplit<B, E>(items: B -> seq<E>, s: seq<B>, b: nat)
    requires b < |s|
    ensures Join(items, s) == Join(items, s[..b]) + items(s[b]) + Join(items, s[b + 1..])
  {
    hide Join;
    CutAt(s, b);
    JoinConcat(items, s[..b], s[b..]);
    JoinFirst(items, s[b..]);
    Bracket(Join(items, s[..b]), items(s[b]), Join(items, s[b + 1..]));
  }

  lemma CutAt<B>(s: seq<B>, b: nat)
    requires b < |s|
    ensures s == s[..b] + s[b..] && s[b..] != [] && s[b..][0] == s[b] && s[b..][1..] == s[b + 1..]
  {
  }

  lemma JoinFirst<B, E>(items: B -> seq<E>, s: seq<B>)
    requires s != []
    ensures Join(items, s) == items(s[0]) + Join(items, s[1..])
  {
  }

  /** All entries, in the order (bucket, index in the bucket). */
  ghost function Flat<K, V>(view: seq<Bucket<K, V>>): seq<Entry<K, V>> {
    Join((b: Bucket<K, V>) => b.Items(), view)
  }

  lemma FlatSplit<K, V>(view: seq<Bucket<K, V>>, b: nat)
    requires b < |view|
    ensures Flat(view) == Flat(view[..b]) + view[b].Items() + Flat(view[b + 1..])
  {
    JoinSplit((b: Bucket<K, V>) => b.Items(), view, b);
  }

  lemma FlatUpdate<K, V>(view: seq<Bucket<K, V>>, b: nat, x: Bucket<K, V>)
    requires b < |view|
    ensures Flat(view[b := x]) == Flat(view[..b]) + x.Items() + Flat(view[b + 1..])
  {
    FlatSplit(view[b := x], b);
    assert view[b := x][..b] == view[..b] && view[b := x][b + 1..] == view[b + 1..];
  }

  lemma FlatPrefix<K, V>(buckets: seq<Bucket<K, V>>, b: nat)
    requires b < |buckets|
    ensures Flat(buckets[..b + 1]) == Flat(buckets[..b]) + buckets[b].Items()
  {
    FlatSplit(buckets[..b + 1], b);
    assert buckets[..b + 1][..b] == buckets[..b] && buckets[..b + 1][b + 1..] == [];
  }

  lemma {:induction false} FlatMember<K, V>(view: seq<Bucket<K, V>>, e: Entry<K, V>) returns (b: nat)
    requires e in Flat(view)
    ensures b < |view| && e in view[b].Items()
  {
    if e in view[0].Items() {
      b := 0;
    } else {
      b := FlatMember(view[1..], e);
      b := b + 1;
    }
  }

  // ----- blocks

  ghost function OwnBlocks<K, V>(e: Entry<K, V>): multiset<Block> {
    multiset{e.self} + multiset{e.keyBlock} + multiset{e.valueBlock}
  }

  ghost function EntryBlocks<K, V>(items: seq<Entry<K, V>>): multiset<Block> {
    Sum(e => OwnBlocks(e), items)
  }

  lemma EntryBlocksConcat<K, V>(a: seq<Entry<K, V>>, b: seq<Entry<K, V>>)
    ensures EntryBlocks(a + b) == EntryBlocks(a) + EntryBlocks(b)
  {
    SumConcat(e => OwnBlocks(e), a, b);
  }

  lemma EntryBlocksOne<K, V>(e: Entry<K, V>)
    ensures EntryBlocks([e]) == OwnBlocks(e)
  {
    SumOne(x => OwnBlocks(x), e);
  }

  /** The array-list blocks of every initialised bucket. */
  ghost function ListBlocks<K, V>(view: seq<Bucket<K, V>>): multiset<Block> {
    Sum((x: Bucket<K, V>) => x.Owned(), view)
  }

  lemma ListBlocksConcat<K, V>(a: seq<Bucket<K, V>>, b: seq<Bucket<K, V>>)
    ensures ListBlocks(a + b) == ListBlocks(a) + ListBlocks(b)
  {
    SumConcat((x: Bucket<K, V>) => x.Owned(), a, b);
  }

  ghost function OtherLists<K, V>(view: seq<Bucket<K, V>>, b: nat): multiset<Block>
    requires b < |view|
  {
    ListBlocks(view[..b]) + ListBlocks(view[b + 1..])
  }

  lemma ListBlocksSplit<K, V>(view: seq<Bucket<K, V>>, b: nat)
    requires b < |view|
    ensures ListBlocks(view) == OtherLists(view, b) + view[b].Owned()
  {
    ListBlocksConcat(view[..b], view[b..]);
    assert view == view[..b] + view[b..];
    assert view[b..][1..] == view[b + 1..];
  }

  lemma ListBlocksUpdate<K, V>(view: seq<Bucket<K, V>>, b: nat, x: Bucket<K, V>)
    requires b < |view|
    ensures ListBlocks(view[b := x]) == OtherLists(view, b) + x.Owned()
  {
    ListBlocksSplit(view[b := x], b);
    assert view[b := x][..b] == view[..b] && view[b := x][b + 1..] == view[b + 1..];
  }

  // ----- the finite map behind a listing

  /** `items` lists exactly the entries of `m`, each once. */
  ghost predicate Lists<K, V, I(!new)>(h: Hasher<K, I>, items: seq<Entry<K, V>>, m: map<I, Entry<K, V>>) {
    && (forall j :: 0 <= j < |items| ==> h.Id(items[j]) in m && m[h.Id(items[j])] == items[j])
    && (forall k :: k in m ==> m[k] in items && h.Id(m[k]) == k)
    && (forall i, j :: 0 <= i < j < |items| ==> h.Id(items[i]) != h.Id(items[j]))
  }

  lemma ListsUnique<K, V, I(!new)>(
    h: Hasher<K, I>, items: seq<Entry<K, V>>, m: map<I, Entry<K, V>>, n: map<I, Entry<K, V>>)
    requires Lists(h, items, m) && Lists(h, items, n)
    ensures m == n
  {
    assert forall k :: k in m ==> k in n && m[k] == n[k];
    assert forall k :: k in n ==> k in m;
  }

  lemma InsertedAt<E>(pre: seq<E>, post: seq<E>, e: E)
    ensures var s, t := pre + post, pre + [e] + post;
            && (forall j :: 0 <= j < |t| && j != |pre| ==> t[j] == s[if j < |pre| then j else j - 1])
            && (forall j :: 0 <= j < |s| ==> s[j] == t[if j < |pre| then j else j + 1]) && t[|pre|] == e
  {
  }

  lemma ListsInsert<K, V, I(!new)>(
    h: Hasher<K, I>, pre: seq<Entry<K, V>>, post: seq<Entry<K, V>>, m: map<I, Entry<K, V>>, e: Entry<K, V>)
    requires Lists(h, pre + post, m) && h.Id(e) !in m
    ensures Lists(h, pre + [e] + post, m[h.Id(e) := e])
  {
    var s, t, n := pre + post, pre + [e] + post, m[h.Id(e) := e];
    InsertedAt(pre, post, e);
    StillDistinct(h, pre, post, m, e);
    forall k | k in n ensures n[k] in t && h.Id(n[k]) == k {
      if k != h.Id(e) {
        var j :| 0 <= j < |s| && s[j] == m[k];
        assert t[if j < |pre| then j else j + 1] == s[j];
      }
    }
  }

  lemma StillDistinct<K, V, I(!new)>(
    h: Hasher<K, I>, pre: seq<Entry<K, V>>, post: seq<Entry<K, V>>, m: map<I, Entry<K, V>>, e: Entry<K, V>)
    requires Lists(h, pre + post, m) && h.Id(e) !in m
    ensures var t := pre + [e] + post;
            && (forall i, j :: 0 <= i < j < |t| ==> h.Id(t[i]) != h.Id(t[j]))
            && (forall j :: 0 <= j < |t| && j != |pre| ==> h.Id(t[j]) in m && m[h.Id(t[j])] == t[j])
  {
    var s, t := pre + post, pre + [e] + post;
    InsertedAt(pre, post, e);
    forall j | 0 <= j < |t| && j != |pre| ensures h.Id(t[j]) in m && m[h.Id(t[j])] == t[j] {
      assert t[j] == s[if j < |pre| then j else j - 1];
    }
    forall i, j | 0 <= i < j < |t| ensures h.Id(t[i]) != h.Id(t[j]) {
      if i != |pre| && j != |pre| {
        assert t[i] == s[if i < |pre| then i else i - 1] && t[j] == s[if j < |pre| then j else j - 1];
      }
    }
  }

  lemma ListsRemove<K, V, I(!new)>(
    h: Hasher<K, I>, pre: seq<Entry<K, V>>, post: seq<Entry<K, V>>, m: map<I, Entry<K, V>>, e: Entry<K, V>)
    requires Lists(h, pre + [e] + post, m)
    ensures Lists(h, pre + post, m - {h.Id(e)})
  {
    var s, t, n := pre + post, pre + [e] + post, m - {h.Id(e)};
    assert forall j :: 0 <= j < |s| ==> s[j] == t[if j < |pre| then j else j + 1];
    assert t[|pre|] == e;
    forall k | k in n ensures n[k] in s && h.Id(n[k]) == k {
      var j :| 0 <= j < |t| && t[j] == m[k];
      assert j != |pre|;
      assert s[if j < |pre| then j else j - 1] == t[j];
    }
  }

  lemma ListsReplace<K, V, I(!new)>(
    h: Hasher<K, I>, pre: seq<Entry<K, V>>, post: seq<Entry<K, V>>, m: map<I, Entry<K, V>>,
    e: Entry<K, V>, e': Entry<K, V>)
    requires Lists(h, pre + [e] + post, m) && h.Id(e) == h.Id(e')
    ensures Lists(h, pre + [e'] + post, m[h.Id(e) := e'])
  {
    ListsRemove(h, pre, post, m, e);
    assert h.Id(e) in m by { assert (pre + [e] + post)[|pre|] == e; }
    ListsInsert(h, pre, post, m - {h.Id(e)}, e');
    assert (m - {h.Id(e)})[h.Id(e) := e'] == m[h.Id(e) := e'];
  }

  lemma {:induction false} ListsSize<K, V, I(!new)>(h: Hasher<K, I>, items: seq<Entry<K, V>>, m: map<I, Entry<K, V>>)
    requires Lists(h, items, m)
    ensures |m| == |items|
  {
    if items == [] {
      assert m.Keys == {};
    } else {
      var last := |items| - 1;
      assert items == items[..last] + [items[last]] + [];
      ListsRemove(h, items[..last], [], m, items[last]);
      assert items[..last] + [] == items[..last];
      ListsSize(h, items[..last], m - {h.Id(items[last])});
      assert m.Keys == (m - {h.Id(items[last])}).Keys + {h.Id(items[last])};
    }
  }

  /** A sum over a listing depends on the map only, not on the order of the listing. */
  lemma {:induction false} SumOfListing<K, V, I(!new)>(
    h: Hasher<K, I>, f: Entry<K, V> -> multiset<Block>, s: seq<Entry<K, V>>, t: seq<Entry<K, V>>,
    m: map<I, Entry<K, V>>)
    requires Lists(h, s, m) && Lists(h, t, m)
    ensures Sum(f, s) == Sum(f, t)
    decreases |s|
  {
    hide *;
    if s == [] {
      NoneListed(h, t, m);
    } else {
      var j := ListedToo(h, s, t, m);
      var last := |s| - 1;
      SplitAt(t, j);
      SplitAt(s, last);
      ListsRemove(h, s[..last], s[last + 1..], m, s[last]);
      ListsRemove(h, t[..j], t[j + 1..], m, t[j]);
      SumOfListing(h, f, s[..last] + s[last + 1..], t[..j] + t[j + 1..], m - {h.Id(s[last])});
      SumInsert(f, s[..last], s[last + 1..], s[last]);
      SumInsert(f, t[..j], t[j + 1..], t[j]);
    }
  }

  lemma NoneListed<K, V, I(!new)>(h: Hasher<K, I>, t: seq<Entry<K, V>>, m: map<I, Entry<K, V>>)
    requires Lists(h, [], m) && Lists(h, t, m)
    ensures t == []
  {
    ListsSize(h, [], m);
    ListsSize(h, t, m);
  }

  lemma ListedToo<K, V, I(!new)>(h: Hasher<K, I>, s: seq<Entry<K, V>>, t: seq<Entry<K, V>>, m: map<I, Entry<K, V>>)
    returns (j: nat)
    requires Lists(h, s, m) && Lists(h, t, m) && s != []
    ensures j < |t| && t[j] == s[|s| - 1]
  {
    var e := s[|s| - 1];
    assert m[h.Id(e)] == e && e in t;
    j :| j < |t| && t[j] == e;
  }

  // ----- bucket choice

  /** Every entry carries the hash of its own key and sits in the bucket that hash selects. */
  ghost predicate Placed<K, V, I(!new)>(h: Hasher<K, I>, view: seq<Bucket<K, V>>) {
    forall b, i :: 0 <= b < |view| && 0 <= i < |view[b].Items()| ==>
                     PlacedAt(h, view[b].Items()[i], |view|, b)
  }

  ghost predicate PlacedAt<K, V, I(!new)>(h: Hasher<K, I>, e: Entry<K, V>, capacity: nat, b: nat) {
    e.hash == h.hash(h.Id(e)) && 0 < capacity && e.hash % capacity == b
  }

  /** Looking in the one bucket the hash selects finds a key exactly when the map has it. */
  lemma LookInBucket<K, V, I(!new)>(h: Hasher<K, I>, view: seq<Bucket<K, V>>, m: map<I, Entry<K, V>>, k: I)
    requires Lists(h, Flat(view), m) && Placed(h, view) && 0 < |view|
    ensures var b := h.hash(k) % |view|;
            && (k in m <==> exists i :: 0 <= i < |view[b].Items()| && h.Id(view[b].Items()[i]) == k)
            && (forall i :: 0 <= i < |view[b].Items()| && h.Id(view[b].Items()[i]) == k ==>
                              k in m && m[k] == view[b].Items()[i])
  {
    var b := h.hash(k) % |view|;
    FlatSplit(view, b);
    forall i | 0 <= i < |view[b].Items()| && h.Id(view[b].Items()[i]) == k
      ensures k in m && m[k] == view[b].Items()[i]
    {
      assert Flat(view)[|Flat(view[..b])| + i] == view[b].Items()[i];
    }
    if k in m {
      var c := FlatMember(view, m[k]);
      var i :| 0 <= i < |view[c].Items()| && view[c].Items()[i] == m[k];
      assert PlacedAt(h, view[c].Items()[i], |view|, c);
    }
  }
}
