/** src/string_map.c: a string map kept in an array of slots, changed in place.

    The C handle whose `impl` pointer is NULL is a null `StringMap?` here; `pairs.Length` is the
    C field `capacity`, and `block` is None where `key_value_pairs` is NULL.
 */
module StringMaps {
  import opened Numbers
  import opened Wrappers
  import opened Allocation
  import opened Slots

  /** The key in the first occupied slot from `start` on. */
  function NextFrom(slots: seq<Slot>, start: nat): Option<Text>
    decreases |slots| - start
  {
    if start >= |slots| then None
    else if Occupied(slots[start]) then slots[start].key
    else NextFrom(slots, start + 1)
  }

  /** A pair is put into slot `i`, and no other slot changes. */
  ghost predicate Puts(before: seq<Slot>, after: seq<Slot>, i: nat, key: string, value: string) {
    && i < |before| == |after| && after == before[i := after[i]]
    && after[i].key.Some? && after[i].key.value.chars == key
    && after[i].value.Some? && after[i].value.value.chars == value
  }

  ghost predicate FirstFree(slots: seq<Slot>, i: nat) {
    i < |slots| && !Occupied(slots[i]) && forall j :: 0 <= j < i ==> Occupied(slots[j])
  }

  /** The pair goes to the slot of its key, or else to the first free one. */
  ghost predicate PutsInPlace(before: seq<Slot>, after: seq<Slot>, key: string, value: string) {
    exists i: nat :: Puts(before, after, i, key, value) &&
                     if HasKey(before, key) then IsAt(before, i, key) else FirstFree(before, i)
  }

  /** The slot of the key is free, and no other slot changes. */
  ghost predicate Frees(before: seq<Slot>, after: seq<Slot>, key: string) {
    exists i: nat :: IsAt(before, i, key) && after == before[i := FREE]
  }

  /** The same keys, at the same addresses, in the same slots. */
  ghost predicate SameSlotKeys(a: seq<Slot>, b: seq<Slot>) {
    |a| == |b| && forall i :: 0 <= i < |a| ==> a[i].key == b[i].key
  }

  ghost predicate KeyBlockAt(slots: seq<Slot>, i: nat, block: Block) {
    i < |slots| && Occupied(slots[i]) && slots[i].key.value.block == block
  }

  class StringMap {
    const alloc: Allocator
    const implBlock: Block
    var pairs: array<Slot>
    var size: nat
    var block: Option<Block>

    ghost predicate Valid()
      reads this, pairs
    {
      WellFormed(pairs[..]) && size == Count(pairs[..]) && (pairs.Length == 0 <==> block.None?)
    }

    ghost function Contents(): map<string, string>
      reads this, pairs
      requires Valid()
    {
      Pairs(pairs[..])
    }

    ghost function Owned(): multiset<Block>
      reads this, pairs
    {
      Blocks(block) + SlotsBlocks(pairs[..]) + multiset{implBlock}
    }

    constructor (alloc: Allocator, implBlock: Block)
      ensures Valid() && this.alloc == alloc && this.implBlock == implBlock && fresh(pairs)
      ensures pairs[..] == [] && size == 0 && Owned() == multiset{implBlock} && Contents() == map[]
    {
      this.alloc, this.implBlock := alloc, implBlock;
      size, block := 0, None;
      pairs := new Slot[0];
      new;
      NoPairs(pairs[..]);
      NoBlocks(pairs[..]);
    }

    method FindIndex(key: string) returns (index: Option<nat>)
      requires Valid()
      ensures index.None? <==> key !in Contents()
      ensures index.Some? ==> index.value < pairs.Length && IsAt(pairs[..], index.value, key)
      ensures index.Some? ==> Contents()[key] == pairs[index.value].value.value.chars
    {
      hide Pairs, Keys, Count;
      PairsDomain(pairs[..]);
      var i: nat := 0;
      while i < pairs.Length
        invariant i <= pairs.Length && forall j: nat :: j < i ==> !IsAt(pairs[..], j, key)
      {
        if pairs[i].key.Some? && pairs[i].key.value.chars == key {
          PairAt(pairs[..], i);
          return Some(i);
        }
        i := i + 1;
      }
      return None;
    }

    method KeyExists(key: string) returns (exist: bool)
      requires Valid()
      ensures exist <==> key in Contents()
    {
      var index := FindIndex(key);
      exist := index.Some?;
    }

    method Get(key: string) returns (value: Option<string>)
      requires Valid()
      ensures value == if key in Contents() then Some(Contents()[key]) else None
    {
      var index := FindIndex(key);
      if index.Some? {
        return Some(pairs[index.value].value.value.chars);
      }
      return None;
    }

    /** The source calls itself with `size` where less is asked for. */
    method Reserve(capacity: nat, ghost rest: multiset<Block>) returns (ret: Ret)
      requires Valid() && alloc.Valid() && alloc.live == rest + Owned()
      modifies this, alloc
      ensures alloc.Valid() && alloc.calls >= old(alloc.calls) && size == old(size)
      ensures ret == Ok || (ret == BadAlloc && !alloc.NoFailure(old(alloc.calls), alloc.calls))
      ensures ret == BadAlloc ==> unchanged(this) && alloc.live == rest + Owned()
      ensures capacity == size == 0 ==> ret == Ok && block.None?
      ensures ret == Ok ==> pairs[..] == Resized(old(pairs[..]), Max(capacity, size))
      ensures ret == Ok ==> alloc.live == rest + Owned() + Lost(old(pairs[..]), Max(capacity, size))
      ensures pairs == old(pairs) || (fresh(pairs) && ret == Ok)
      ensures pairs == old(pairs) ==> ret != Ok || pairs.Length == Max(capacity, size)
      ensures NothingLost(old(pairs[..]), Max(capacity, size)) ==>
                Valid() && Contents() == old(Contents()) && alloc.live == rest + Owned()
    {
      hide SlotsBlocks, Count, Pairs, WellFormed, Lost, Resized, Allocator.NoFailure;
      var n := Max(capacity, size);
      ghost var slots := pairs[..];
      ResizedCount(slots, n);
      BlocksResize(slots, n);
      ret := Ok;
      if n != pairs.Length {
        ret := Reallocate(n, rest + SlotsBlocks(slots) + multiset{implBlock});
      }
    }

    /** The part of `Reserve` that moves the slots; `rest` are all blocks but that of the array. */
    method Reallocate(capacity: nat, ghost rest: multiset<Block>) returns (ret: Ret)
      requires alloc.Valid() && alloc.live == rest + Blocks(block)
      modifies this`pairs, this`block, alloc
      ensures alloc.Valid() && alloc.live == rest + Blocks(block) && alloc.calls >= old(alloc.calls)
      ensures ret == Ok || (ret == BadAlloc && !alloc.NoFailure(old(alloc.calls), alloc.calls))
      ensures ret == BadAlloc ==> unchanged(this) && capacity > 0
      ensures ret == Ok ==> pairs[..] == Resized(old(pairs[..]), capacity) && (capacity == 0 <==> block.None?)
      ensures ret == Ok ==> fresh(pairs) && pairs.Length == capacity
    {
      if capacity == 0 {
        alloc.Deallocate(block, rest);
        block := None;
        pairs := new Slot[0];
        return Ok;
      }
      var newBlock := alloc.Reallocate(block, rest);
      if newBlock.None? {
        return BadAlloc;
      }
      block := newBlock;
      var newPairs := new Slot[capacity](_ => FREE);
      forall i | 0 <= i < capacity && i < pairs.Length {
        newPairs[i] := pairs[i];
      }
      ResizedIs(pairs[..], newPairs[..], capacity);
      pairs := newPairs;
      return Ok;
    }

    method FindFree() returns (index: nat)
      requires Valid() && size < pairs.Length
      ensures index < pairs.Length && !Occupied(pairs[index]) && forall j :: 0 <= j < index ==> Occupied(pairs[j])
    {
      CountFull(pairs[..]);
      ghost var free: nat :| free < pairs.Length && !Occupied(pairs[..][free]);
      index := 0;
      while pairs[index].key.Some?
        invariant index <= free && forall j :: 0 <= j < index ==> Occupied(pairs[j])
        decreases pairs.Length - index
      {
        index := index + 1;
      }
    }

    /** Keys are handed back by address: the next one in slot order, the first one for NULL. */
    method GetNextKey(key: Option<Block>) returns (next: Option<Text>)
      requires Valid()
      ensures key.None? ==> next == NextFrom(pairs[..], 0)
      ensures forall i: nat :: key.Some? && KeyBlockAt(pairs[..], i, key.value) ==> next == NextFrom(pairs[..], i + 1)
      ensures (key.Some? && forall i: nat :: !KeyBlockAt(pairs[..], i, key.value)) ==> next == None
    {
      hide Count;
      if size == 0 {
        NothingNext(pairs[..]);
        return None;
      }
      var start: nat := 0;
      if key.Some? {
        var found := false;
        for i := 0 to pairs.Length
          invariant found ==> 0 < start <= i && KeyBlockAt(pairs[..], start - 1, key.value)
          invariant !found ==> forall j: nat :: j < i ==> !KeyBlockAt(pairs[..], j, key.value)
        {
          if pairs[i].key.Some? && pairs[i].key.value.block == key.value {
            found, start := true, i + 1;
          }
        }
        if !found {
          return None;
        }
      }
      for i := start to pairs.Length
        invariant NextFrom(pairs[..], start) == NextFrom(pairs[..], i)
      {
        if pairs[i].key.Some? {
          return pairs[i].key;
        }
      }
      return None;
    }

    /** A key that is not there yet: both strings are duplicated, or neither stays. */
    method StoreNew(i: nat, key: string, value: string, ghost rest: multiset<Block>) returns (ret: Ret)
      requires Valid() && alloc.Valid() && alloc.live == rest + Owned()
      requires i < pairs.Length && !Occupied(pairs[i]) && key !in Contents()
      modifies this`size, pairs, alloc
      ensures Valid() && alloc.Valid() && alloc.live == rest + Owned() && alloc.calls >= old(alloc.calls)
      ensures ret == Ok || (ret == BadAlloc && !alloc.NoFailure(old(alloc.calls), alloc.calls))
      ensures ret == BadAlloc ==> pairs[..] == old(pairs[..])
      ensures ret == Ok ==> Contents() == old(Contents())[key := value]
      ensures ret == Ok ==> Puts(old(pairs[..]), pairs[..], i, key, value)
    {
      hide SlotsBlocks, Count, Pairs, WellFormed, Keys, Allocator.NoFailure;
      ghost var slots := pairs[..];
      FreeSlot(slots, i);
      var keyBlock := alloc.Allocate();
      if keyBlock.None? {
        FailedAt(alloc, old(alloc.calls), old(alloc.calls), alloc.calls);
        assert pairs[..] == slots;
        return BadAlloc;
      }
      assert keyBlock.value !in SlotsBlocks(slots) && pairs[..] == slots;
      var key' := Text(key, keyBlock.value);
      pairs[i] := Slot(Some(key'), None);
      ret := StoreNewValue(i, key', value, slots, rest);
      FailedLater(alloc, old(alloc.calls), old(alloc.calls) + 1, alloc.calls);
    }

    /** The key is in its slot, the value not yet. */
    method StoreNewValue(i: nat, key: Text, value: string, ghost slots: seq<Slot>, ghost rest: multiset<Block>)
      returns (ret: Ret)
      requires i < pairs.Length == |slots| && slots[i] == FREE && pairs[..] == slots[i := Slot(Some(key), None)]
      requires WellFormed(slots) && size == Count(slots) && block.Some?
      requires key.chars !in Pairs(slots) && key.block !in SlotsBlocks(slots)
      requires alloc.Valid()
      requires alloc.live == rest + (Blocks(block) + SlotsBlocks(slots) + multiset{implBlock}) + multiset{key.block}
      modifies this`size, pairs, alloc
      ensures Valid() && alloc.Valid() && alloc.live == rest + Owned() && alloc.calls >= old(alloc.calls)
      ensures ret == Ok || (ret == BadAlloc && !alloc.NoFailure(old(alloc.calls), alloc.calls))
      ensures ret == BadAlloc ==> pairs[..] == slots
      ensures ret == Ok ==> Contents() == Pairs(slots)[key.chars := value]
      ensures ret == Ok ==> Puts(slots, pairs[..], i, key.chars, value)
    {
      hide SlotsBlocks, Count, Pairs, WellFormed, Keys, Allocator.NoFailure;
      ghost var others := rest + Blocks(block) + multiset{implBlock};
      var valueBlock := alloc.Allocate();
      if valueBlock.None? {
        FailedAt(alloc, old(alloc.calls), old(alloc.calls), alloc.calls);
        alloc.Deallocate(Some(key.block), others + SlotsBlocks(slots));
        pairs[i] := FREE;
        Restored(slots, pairs[..], i);
        return BadAlloc;
      }
      var text := Text(value, valueBlock.value);
      pairs[i] := Slot(Some(key), Some(text));
      size := size + 1;
      Stored(slots, pairs[..], i, key, text);
      return Ok;
    }

    method Overwrite(i: nat, value: string, ghost rest: multiset<Block>) returns (ret: Ret)
      requires Valid() && alloc.Valid() && alloc.live == rest + Owned()
      requires i < pairs.Length && Occupied(pairs[i])
      modifies pairs, alloc
      ensures Valid() && alloc.Valid() && alloc.live == rest + Owned() && alloc.calls >= old(alloc.calls)
      ensures ret == Ok || (ret == BadAlloc && !alloc.NoFailure(old(alloc.calls), alloc.calls))
      ensures ret == BadAlloc ==> pairs[..] == old(pairs[..])
      ensures SameSlotKeys(old(pairs[..]), pairs[..])
      ensures ret == Ok ==> Contents() == old(Contents())[old(pairs[i]).key.value.chars := value]
      ensures ret == Ok ==> Puts(old(pairs[..]), pairs[..], i, old(pairs[i]).key.value.chars, value)
    {
      hide SlotsBlocks, Count, Pairs, WellFormed, Keys;
      ghost var slots := pairs[..];
      var original := pairs[i].value;
      var newBlock := alloc.Allocate();
      if newBlock.None? {
        return BadAlloc;
      }
      var newText := Text(value, newBlock.value);
      pairs[i] := pairs[i].(value := Some(newText));
      Replaced(slots, pairs[..], i, newText);
      ghost var others := rest + Blocks(block) + multiset{implBlock};
      assert alloc.live == others + (SlotsBlocks(slots) + multiset{newText.block});
      alloc.Deallocate(Some(original.value.block), others + SlotsBlocks(pairs[..]));
      return Ok;
    }

    method SetNoResize(key: string, value: string, ghost rest: multiset<Block>) returns (ret: Ret)
      requires Valid() && alloc.Valid() && alloc.live == rest + Owned()
      modifies this`size, pairs, alloc
      ensures Valid() && alloc.Valid() && alloc.live == rest + Owned() && alloc.calls >= old(alloc.calls)
      ensures ret == NotEnoughSpace <==> key !in old(Contents()) && old(size) == pairs.Length
      ensures ret == NotEnoughSpace ==> unchanged(this) && unchanged(pairs)
      ensures ret == Ok || ret == NotEnoughSpace || (ret == BadAlloc && !alloc.NoFailure(old(alloc.calls), alloc.calls))
      ensures Contents() == if ret == Ok then old(Contents())[key := value] else old(Contents())
      ensures key in old(Contents()) ==> pairs == old(pairs) && SameSlotKeys(old(pairs[..]), pairs[..])
      ensures ret == Ok ==> PutsInPlace(old(pairs[..]), pairs[..], key, value)
    {
      hide SlotsBlocks, Count, Pairs, WellFormed, Keys, Allocator.NoFailure, Puts, PutsInPlace, HasKey;
      ghost var slots := pairs[..];
      SizeIsBelow(pairs[..]);
      KeyIs(pairs[..], key);
      var index := FindIndex(key);
      if index.None? {
        if size == pairs.Length {
          return NotEnoughSpace;
        }
        var free := FindFree();
        ret := StoreNew(free, key, value, rest);
        InPlace(slots, pairs[..], free, key, value);
      } else {
        ret := Overwrite(index.value, value, rest);
        InPlace(slots, pairs[..], index.value, key, value);
      }
    }

    /** Doubles the capacity when there is no room, and then there is. */
    method Set(key: string, value: string, ghost rest: multiset<Block>) returns (ret: Ret)
      requires Valid() && alloc.Valid() && alloc.live == rest + Owned()
      modifies this, pairs, alloc
      ensures Valid() && alloc.Valid() && alloc.live == rest + Owned() && alloc.calls >= old(alloc.calls)
      ensures ret == Ok || (ret == BadAlloc && !alloc.NoFailure(old(alloc.calls), alloc.calls))
      ensures Contents() == if ret == Ok then old(Contents())[key := value] else old(Contents())
      ensures key in old(Contents()) ==> pairs == old(pairs) && SameSlotKeys(old(pairs[..]), pairs[..])
      ensures pairs == old(pairs) || (fresh(pairs) && key !in old(Contents()) && old(size) == old(pairs.Length))
      ensures pairs == old(pairs) || pairs.Length == if old(pairs.Length) == 0 then 1 else 2 * old(pairs.Length)
    {
      hide SlotsBlocks, Count, Pairs, WellFormed, Keys, Allocator.NoFailure;
      ret := SetNoResize(key, value, rest);
      if ret == NotEnoughSpace {
        ghost var middle := alloc.calls;
        ret := Double(rest);
        if ret == Ok {
          middle := alloc.calls;
          ret := SetNoResize(key, value, rest);
        }
        FailedLater(alloc, old(alloc.calls), middle, alloc.calls);
      }
    }

    method Double(ghost rest: multiset<Block>) returns (ret: Ret)
      requires Valid() && alloc.Valid() && alloc.live == rest + Owned() && size == pairs.Length
      modifies this, alloc
      ensures Valid() && alloc.Valid() && alloc.live == rest + Owned() && alloc.calls >= old(alloc.calls)
      ensures ret == Ok || (ret == BadAlloc && !alloc.NoFailure(old(alloc.calls), alloc.calls))
      ensures Contents() == old(Contents()) && (ret == Ok ==> size < pairs.Length)
      ensures ret == Ok ==> fresh(pairs) && pairs.Length == if old(pairs.Length) == 0 then 1 else 2 * old(pairs.Length)
      ensures ret != Ok ==> pairs == old(pairs)
    {
      hide SlotsBlocks, Count, Pairs, WellFormed, Keys, Lost, NothingLost, Resized, Allocator.NoFailure;
      SizeIsBelow(pairs[..]);
      var newCapacity := if pairs.Length != 0 then 2 * pairs.Length else 1;
      ResizedAt(pairs[..], newCapacity);
      ret := Reserve(newCapacity, rest);
    }

    method RemoveAt(i: nat, ghost rest: multiset<Block>)
      requires Valid() && alloc.Valid() && alloc.live == rest + Owned()
      requires i < pairs.Length && Occupied(pairs[i])
      modifies this`size, pairs, alloc`live
      ensures Valid() && alloc.Valid() && alloc.live == rest + Owned()
      ensures pairs[..] == old(pairs[..])[i := FREE]
      ensures Contents() == old(Contents()) - {old(pairs[i]).key.value.chars}
    {
      hide SlotsBlocks, Count, Pairs, WellFormed, Keys;
      ghost var slots := pairs[..];
      var slot := pairs[i];
      Removed(slots, i);
      ghost var others := rest + Blocks(block) + multiset{implBlock} + SlotsBlocks(slots[i := FREE]);
      alloc.Deallocate(Some(slot.key.value.block), others + multiset{slot.value.value.block});
      pairs[i] := pairs[i].(key := None);
      alloc.Deallocate(Some(slot.value.value.block), others);
      pairs[i] := pairs[i].(value := None);
      size := size - 1;
      assert pairs[..] == slots[i := FREE];
    }

    method Unset(key: string, ghost rest: multiset<Block>) returns (ret: Ret)
      requires Valid() && alloc.Valid() && alloc.live == rest + Owned()
      modifies this`size, pairs, alloc`live
      ensures Valid() && alloc.Valid() && alloc.live == rest + Owned()
      ensures ret == if key in old(Contents()) then Ok else KeyNotFound
      ensures Contents() == old(Contents()) - {key}
      ensures if ret == Ok then Frees(old(pairs[..]), pairs[..], key) else pairs[..] == old(pairs[..])
    {
      hide SlotsBlocks, Count, Pairs, WellFormed, Keys;
      var index := FindIndex(key);
      if index.None? {
        return KeyNotFound;
      }
      RemoveAt(index.value, rest);
      return Ok;
    }

    method Clear(ghost rest: multiset<Block>)
      requires Valid() && alloc.Valid() && alloc.live == rest + Owned()
      modifies this`size, pairs, alloc`live
      ensures Valid() && alloc.Valid() && alloc.live == rest + Owned()
      ensures Contents() == map[] && size == 0
    {
      hide Valid, Owned, Contents, Occupied;
      var i: nat := 0;
      while i < pairs.Length
        invariant i <= pairs.Length && forall j :: 0 <= j < i ==> !Occupied(pairs[..][j])
        invariant Valid() && alloc.Valid() && alloc.live == rest + Owned()
      {
        if pairs[i].key.Some? {
          OccupiedIs(pairs[i]);
          RemoveAt(i, rest);
        }
        OccupiedIs(pairs[i]);
        i := i + 1;
      }
      NothingStored(this);
    }

    /** After the last call every block of the map is given back; the handle is dead. */
    method Fini(ghost rest: multiset<Block>) returns (ret: Ret)
      requires Valid() && alloc.Valid() && alloc.live == rest + Owned()
      modifies this, pairs, alloc
      ensures ret == Ok && alloc.Valid() && alloc.live == rest && alloc.calls >= old(alloc.calls)
    {
      hide Valid, Owned, Contents, NothingLost, Lost, Resized;
      Clear(rest);
      NothingToFree(this);
      ret := Reserve(0, rest);
      OnlyTheHandle(this);
      alloc.Deallocate(Some(implBlock), rest);
      assert ret == Ok;
    }
  }

  lemma ResizedIs(slots: seq<Slot>, after: seq<Slot>, n: nat)
    requires |after| == n && forall i :: 0 <= i < n ==> after[i] == if i < |slots| then slots[i] else FREE
    ensures after == Resized(slots, n)
  {
  }

  lemma ResizedCount(slots: seq<Slot>, n: nat)
    requires WellFormed(slots)
    ensures Resized(slots, |slots|) == slots && Lost(slots, |slots|) == multiset{}
    ensures WellFormed(Resized(slots, n))
    ensures NothingLost(slots, n) ==>
              Count(Resized(slots, n)) == Count(slots) && Pairs(Resized(slots, n)) == Pairs(slots)
  {
    NoBlocks([]);
    assert Resized(slots, |slots|) == slots && slots[|slots|..] == [];
    ResizedKeeps(slots, n);
    CountIsSize(slots);
    CountIsSize(Resized(slots, n));
  }

  lemma OccupiedIs(s: Slot)
    ensures Occupied(s) <==> s.key.Some?
  {
  }

  lemma NothingStored(m: StringMap)
    requires m.Valid() && forall j :: 0 <= j < |m.pairs[..]| ==> !Occupied(m.pairs[..][j])
    ensures m.Contents() == map[] && m.size == 0
  {
    NoPairs(m.pairs[..]);
    CountFull(m.pairs[..]);
  }

  lemma NothingToFree(m: StringMap)
    requires m.Valid() && m.size == 0
    ensures NothingLost(m.pairs[..], Max(0, m.size)) && Resized(m.pairs[..], Max(0, m.size)) == []
  {
    NoneInUse(m.pairs[..]);
  }

  lemma OnlyTheHandle(m: StringMap)
    requires m.pairs[..] == [] && m.block.None?
    ensures m.Owned() == multiset{m.implBlock}
  {
    NoBlocks([]);
  }

  lemma InPlace(before: seq<Slot>, after: seq<Slot>, i: nat, key: string, value: string)
    requires if HasKey(before, key) then IsAt(before, i, key) else FirstFree(before, i)
    ensures Puts(before, after, i, key, value) ==> PutsInPlace(before, after, key, value)
  {
  }

  lemma KeyIs(slots: seq<Slot>, key: string)
    requires WellFormed(slots)
    ensures HasKey(slots, key) <==> key in Pairs(slots)
  {
    PairsDomain(slots);
  }

  lemma FreeSlot(slots: seq<Slot>, i: nat)
    requires WellFormed(slots) && i < |slots| && !Occupied(slots[i])
    ensures slots[i] == FREE
  {
  }

  lemma Restored(slots: seq<Slot>, after: seq<Slot>, i: nat)
    requires i < |slots| == |after| && after[i] == slots[i]
    requires forall j :: 0 <= j < |slots| && j != i ==> after[j] == slots[j]
    ensures after == slots
  {
  }

  lemma Gained(a: multiset<Block>, b: multiset<Block>, k: multiset<Block>, v: multiset<Block>)
    requires a + multiset{} == b + (k + v)
    ensures a == b + k + v
  {
    assert forall x :: (a + multiset{})[x] == a[x];
  }

  lemma Swapped(a: multiset<Block>, b: multiset<Block>, k: multiset<Block>, v: multiset<Block>, w: multiset<Block>)
    requires a + (k + v) == b + (k + w)
    ensures a + v == b + w
  {
    assert forall x :: (a + (k + v))[x] == a[x] + k[x] + v[x];
    assert forall x :: (b + (k + w))[x] == b[x] + k[x] + w[x];
  }

  lemma Stored(slots: seq<Slot>, after: seq<Slot>, i: nat, key: Text, value: Text)
    requires WellFormed(slots) && i < |slots| && slots[i] == FREE && key.chars !in Pairs(slots)
    requires after == slots[i := Slot(Some(key), Some(value))]
    requires key.block !in SlotsBlocks(slots)
    ensures WellFormed(after) && Count(after) == Count(slots) + 1
    ensures Pairs(after) == Pairs(slots)[key.chars := value.chars]
    ensures SlotsBlocks(after) == SlotsBlocks(slots) + multiset{key.block} + multiset{value.block}
  {
    hide SlotsBlocks, Count, Keys, WellFormed;
    NewKeyBlock(slots, key.block);
    PairsDomain(slots);
    hide Pairs;
    PairsStore(slots, i, key, value);
    CountUpdate(slots, i, Slot(Some(key), Some(value)));
    BlocksReplace(slots, i, Slot(Some(key), Some(value)));
    Gained(SlotsBlocks(after), SlotsBlocks(slots), multiset{key.block}, multiset{value.block});
  }

  lemma Replaced(slots: seq<Slot>, after: seq<Slot>, i: nat, value: Text)
    requires WellFormed(slots) && i < |slots| && Occupied(slots[i])
    requires after == slots[i := slots[i].(value := Some(value))]
    ensures slots[i].value.Some? && WellFormed(after) && Count(after) == Count(slots)
    ensures Pairs(after) == Pairs(slots)[slots[i].key.value.chars := value.chars]
    ensures SlotsBlocks(after) + multiset{slots[i].value.value.block} == SlotsBlocks(slots) + multiset{value.block}
  {
    hide SlotsBlocks, Count, Keys, Pairs;
    var key := slots[i].key.value;
    assert slots[i].(value := Some(value)) == Slot(Some(key), Some(value));
    PairsStore(slots, i, key, value);
    CountUpdate(slots, i, Slot(Some(key), Some(value)));
    BlocksReplace(slots, i, Slot(Some(key), Some(value)));
    Swapped(SlotsBlocks(after), SlotsBlocks(slots), multiset{key.block}, multiset{slots[i].value.value.block},
            multiset{value.block});
  }

  lemma Removed(slots: seq<Slot>, i: nat)
    requires WellFormed(slots) && i < |slots| && Occupied(slots[i])
    ensures slots[i].value.Some? && WellFormed(slots[i := FREE]) && Count(slots[i := FREE]) + 1 == Count(slots)
    ensures Pairs(slots[i := FREE]) == Pairs(slots) - {slots[i].key.value.chars}
    ensures SlotsBlocks(slots) ==
            SlotsBlocks(slots[i := FREE]) + multiset{slots[i].key.value.block} + multiset{slots[i].value.value.block}
  {
    hide SlotsBlocks, Count, Keys, Pairs;
    PairsClear(slots, i);
    CountUpdate(slots, i, FREE);
    BlocksReplace(slots, i, FREE);
    Gained(SlotsBlocks(slots), SlotsBlocks(slots[i := FREE]), multiset{slots[i].key.value.block},
           multiset{slots[i].value.value.block});
  }

  lemma SizeIsBelow(slots: seq<Slot>)
    ensures Count(slots) <= |slots|
    ensures forall n: nat :: n >= |slots| ==> NothingLost(slots, n)
  {
    CountFull(slots);
  }

  lemma NoneInUse(slots: seq<Slot>)
    requires Count(slots) == 0
    ensures NothingLost(slots, 0) && Resized(slots, 0) == [] && SlotsBlocks([]) == multiset{}
  {
    CountFull(slots);
    NoBlocks([]);
  }

  lemma NothingNext(slots: seq<Slot>)
    requires Count(slots) == 0
    ensures forall start: nat :: NextFrom(slots, start) == None
  {
    CountFull(slots);
    forall start: nat ensures NextFrom(slots, start) == None {
      NothingFrom(slots, start);
    }
  }

  lemma {:induction false} NothingFrom(slots: seq<Slot>, start: nat)
    requires forall i :: 0 <= i < |slots| ==> !Occupied(slots[i])
    ensures NextFrom(slots, start) == None
    decreases |slots| - start
  {
    if start < |slots| {
      NothingFrom(slots, start + 1);
    }
  }

  method InitMap(initialCapacity: nat, alloc: Allocator, ghost rest: multiset<Block>) returns (ret: Ret, m: StringMap?)
    requires alloc.Valid() && alloc.live == rest
    modifies alloc
    ensures alloc.Valid() && alloc.calls >= old(alloc.calls)
    ensures m == null <==> ret != Ok
    ensures ret == Ok || (ret == BadAlloc && alloc.live == rest && !alloc.NoFailure(old(alloc.calls), alloc.calls))
    ensures m != null ==> m.Valid() && fresh(m) && fresh(m.pairs) && m.alloc == alloc && alloc.live == rest + m.Owned()
    ensures m != null ==> m.Contents() == map[] && m.pairs.Length == initialCapacity
    ensures m != null ==> m.pairs[..] == Resized([], initialCapacity)
  {
    hide SlotsBlocks, Count, Pairs, WellFormed, Keys, Lost, NothingLost, Resized;
    var implBlock := alloc.Allocate();
    if implBlock.None? {
      return BadAlloc, null;
    }
    m := new StringMap(alloc, implBlock.value);
    NothingToLose();
    ResizedAt([], initialCapacity);
    ret := m.Reserve(initialCapacity, rest);
    if ret != Ok {
      alloc.Deallocate(implBlock, rest);
      return ret, null;
    }
  }

  lemma NothingToLose()
    ensures forall n :: NothingLost([], n) && Lost([], n) == multiset{}
  {
    NoBlocks([]);
  }

  // ----- copying one map over another

  /** The first occupied slot from `start` on, or the end. */
  ghost predicate IsNext(slots: seq<Slot>, start: nat, next: nat) {
    start <= next <= |slots|
    && (forall i :: start <= i < next ==> !Occupied(slots[i]))
    && (next < |slots| ==> Occupied(slots[next]))
  }

  lemma {:induction false} NextIs(slots: seq<Slot>, start: nat) returns (next: nat)
    requires start <= |slots|
    ensures IsNext(slots, start, next)
    ensures NextFrom(slots, start) == if next < |slots| then slots[next].key else None
    decreases |slots| - start
  {
    if start == |slots| || Occupied(slots[start]) {
      next := start;
    } else {
      next := NextIs(slots, start + 1);
    }
  }

  /** The pairs in the first `i` slots. */
  ghost function Before(slots: seq<Slot>, i: nat): map<string, string>
    requires WellFormed(slots) && i <= |slots|
  {
    ResizedIsWellFormed(slots, i);
    Pairs(slots[..i])
  }

  lemma BeforeStart(slots: seq<Slot>, next: nat)
    requires WellFormed(slots) && IsNext(slots, 0, next)
    ensures Before(slots, next) == map[]
  {
    ResizedIsWellFormed(slots, next);
    NoPairs(slots[..next]);
  }

  lemma BeforeEnd(slots: seq<Slot>)
    requires WellFormed(slots)
    ensures Before(slots, |slots|) == Pairs(slots)
  {
    assert slots[..|slots|] == slots;
  }

  lemma BeforeStep(slots: seq<Slot>, i: nat, next: nat)
    requires WellFormed(slots) && i < |slots| && Occupied(slots[i]) && IsNext(slots, i + 1, next)
    ensures Before(slots, next) == Before(slots, i)[slots[i].key.value.chars := slots[i].value.value.chars]
  {
    hide Pairs, Keys;
    ResizedIsWellFormed(slots, next);
    ResizedIsWellFormed(slots, i + 1);
    ResizedIsWellFormed(slots, i);
    ResizedKeeps(slots[..next], i + 1);
    assert Resized(slots[..next], i + 1) == slots[..i + 1];
    BeforeSnoc(slots, i);
  }

  lemma BeforeSnoc(slots: seq<Slot>, i: nat)
    requires WellFormed(slots) && i < |slots| && Occupied(slots[i])
    ensures Before(slots, i + 1) == Before(slots, i)[slots[i].key.value.chars := slots[i].value.value.chars]
  {
    hide Pairs, Keys;
    var init := slots[..i];
    var grown := Resized(init, i + 1);
    ResizedIsWellFormed(slots, i);
    ResizedIsWellFormed(slots, i + 1);
    ResizedKeeps(init, i + 1);
    var key, value := slots[i].key.value, slots[i].value.value;
    assert !HasKey(grown, key.chars);
    PairsStore(grown, i, key, value);
    assert grown[i := Slot(Some(key), Some(value))] == slots[..i + 1];
  }

  lemma OverrideOne(base: map<string, string>, more: map<string, string>, key: string, value: string)
    ensures (base + more)[key := value] == base + more[key := value]
  {
  }

  lemma OverrideNone(base: map<string, string>)
    ensures base + map[] == base
  {
  }

  lemma {:induction false} NextOfSame(a: seq<Slot>, b: seq<Slot>, start: nat)
    requires SameSlotKeys(a, b)
    ensures NextFrom(a, start) == NextFrom(b, start)
    decreases |a| - start
  {
    if start < |a| && !Occupied(a[start]) {
      NextOfSame(a, b, start + 1);
    }
  }

  lemma BeforeIsPart(slots: seq<Slot>, i: nat)
    requires WellFormed(slots) && i <= |slots|
    ensures Pairs(slots) + Before(slots, i) == Pairs(slots)
  {
    hide Keys;
    ResizedIsWellFormed(slots, i);
    forall k | k in Before(slots, i) ensures k in Pairs(slots) && Before(slots, i)[k] == Pairs(slots)[k] {
      var j: nat :| IsAt(slots[..i], j, k);
      assert slots[..i][j] == slots[j];
      PairAt(slots[..i], j);
      PairAt(slots, j);
    }
  }

  /** From the key in slot `i` to the key after it, with what that adds to the pairs passed. */
  method Advance(src: StringMap, key: Text, ghost slots: seq<Slot>, ghost i: nat)
    returns (next: Option<Text>, ghost j: nat)
    requires src.Valid() && SameSlotKeys(slots, src.pairs[..])
    requires WellFormed(slots) && i < |slots| && slots[i].key == Some(key)
    ensures i < j <= |slots| && next == (if j < |slots| then slots[j].key else None)
    ensures j < |slots| ==> Occupied(slots[j])
    ensures slots[i].value.Some? && Before(slots, j) == Before(slots, i)[key.chars := slots[i].value.value.chars]
  {
    hide Count, Pairs, Keys, IsAt, NextFrom, IsNext, Before;
    ghost var now := src.pairs[..];
    assert KeyBlockAt(now, i, key.block);
    next := src.GetNextKey(Some(key.block));
    assert src.pairs[..] == now;
    assert next == NextFrom(now, i + 1);
    NextOfSame(slots, now, i + 1);
    j := NextIs(slots, i + 1);
    AtNext(slots, i + 1, j);
    BeforeStep(slots, i, j);
  }

  /** Between two rounds of a copy: the source is as it was, also when it is the destination. */
  ghost predicate Copying(
    src: StringMap, dst: StringMap, slots: seq<Slot>, base: map<string, string>, copied: nat, key: Option<Text>)
    reads src, dst, src.pairs, dst.pairs
    requires WellFormed(slots) && src.Valid() && dst.Valid()
  {
    && copied <= |slots| && key == (if copied < |slots| then slots[copied].key else None)
    && (copied < |slots| ==> Occupied(slots[copied]))
    && SameSlotKeys(slots, src.pairs[..]) && src.Contents() == Pairs(slots)
    && (src == dst ==> base == Pairs(slots)) && (src != dst ==> src.pairs != dst.pairs)
    && dst.Contents() == base + Before(slots, copied)
  }

  lemma CopiesOne(slots: seq<Slot>, base: map<string, string>, i: nat, j: nat, after: map<string, string>)
    requires WellFormed(slots) && i < |slots| && j <= |slots| && Occupied(slots[i]) && slots[i].value.Some?
    requires Before(slots, j) == Before(slots, i)[slots[i].key.value.chars := slots[i].value.value.chars]
    requires after == (base + Before(slots, i))[slots[i].key.value.chars := slots[i].value.value.chars]
    ensures after == base + Before(slots, j)
    ensures base == Pairs(slots) ==> after == base
  {
    hide Pairs, Before;
    OverrideOne(base, Before(slots, i), slots[i].key.value.chars, slots[i].value.value.chars);
    BeforeIsPart(slots, j);
  }

  /** One round: the pair is set, and the next key fetched. */
  method CopyOne(src: StringMap, dst: StringMap, key: Text, ghost slots: seq<Slot>, ghost base: map<string, string>,
                 ghost copied: nat, ghost rest: multiset<Block>)
    returns (ret: Ret, next: Option<Text>, ghost j: nat)
    requires src.Valid() && dst.Valid() && WellFormed(slots) && Copying(src, dst, slots, base, copied, Some(key))
    requires dst.alloc.Valid() && dst.alloc.live == rest + dst.Owned()
    modifies dst, dst.pairs, dst.alloc
    ensures src.Valid() && dst.Valid() && dst.alloc.Valid() && dst.alloc.live == rest + dst.Owned()
    ensures dst.alloc.calls >= old(dst.alloc.calls) && (dst.pairs == old(dst.pairs) || fresh(dst.pairs))
    ensures ret == Ok || (ret == BadAlloc && !dst.alloc.NoFailure(old(dst.alloc.calls), dst.alloc.calls))
    ensures ret == Ok ==> Copying(src, dst, slots, base, j, next) && j > copied
    ensures ret != Ok ==> dst.Contents() == old(dst.Contents())
  {
    hide SlotsBlocks, Count, Pairs, WellFormed, Keys, IsAt, NextFrom, Before, Allocator.NoFailure, Blocks;
    PairAt(slots, copied);
    next, j := None, copied;
    var value := src.Get(key.chars);
    ret := dst.Set(key.chars, value.value, rest);
    if ret == Ok {
      next, j := Advance(src, key, slots, copied);
      CopiesOne(slots, base, copied, j, dst.Contents());
    }
  }

  /** Copies the pairs one by one; when one cannot be stored, those before it stay copied.  Source and
      destination may be the same map. */
  method Copy(src: StringMap, dst: StringMap, ghost rest: multiset<Block>) returns (ret: Ret, ghost copied: nat)
    requires src.Valid() && dst.Valid() && (src != dst ==> src.pairs != dst.pairs)
    requires dst.alloc.Valid() && dst.alloc.live == rest + dst.Owned()
    modifies dst, dst.pairs, dst.alloc
    ensures dst.Valid() && dst.alloc.Valid() && dst.alloc.live == rest + dst.Owned()
    ensures src.Valid() && copied <= |old(src.pairs[..])|
    ensures dst.alloc.calls >= old(dst.alloc.calls) && (dst.pairs == old(dst.pairs) || fresh(dst.pairs))
    ensures ret == Ok ==> dst.Contents() == old(dst.Contents()) + old(src.Contents())
    ensures ret != Ok ==> ret == BadAlloc && dst.Contents() == old(dst.Contents()) + Before(old(src.pairs[..]), copied)
    ensures dst.alloc.NoFailure(old(dst.alloc.calls), dst.alloc.calls) ==> ret == Ok
  {
    hide SlotsBlocks, Count, Pairs, Keys, WellFormed, IsAt;
    hide NextFrom, IsNext, Before, Allocator.NoFailure, Blocks;
    ghost var slots, base := src.pairs[..], dst.Contents();
    var key := src.GetNextKey(None);
    copied := NextIs(slots, 0);
    BeforeStart(slots, copied);
    OverrideNone(base);
    AtNext(slots, 0, copied);
    while key.Some?
      invariant src.Valid() && dst.Valid() && dst.alloc.Valid() && dst.alloc.live == rest + dst.Owned()
      invariant dst.alloc.calls >= old(dst.alloc.calls) && (dst.pairs == old(dst.pairs) || fresh(dst.pairs))
      invariant Copying(src, dst, slots, base, copied, key)
      decreases |slots| - copied
    {
      ghost var middle, j := dst.alloc.calls, copied;
      ret, key, j := CopyOne(src, dst, key.value, slots, base, copied, rest);
      FailedLater(dst.alloc, old(dst.alloc.calls), middle, dst.alloc.calls);
      if ret != Ok {
        return ret, copied;
      }
      copied := j;
    }
    BeforeEnd(slots);
    return Ok, copied;
  }

  lemma AtNext(slots: seq<Slot>, start: nat, next: nat)
    requires IsNext(slots, start, next)
    ensures start <= next <= |slots| && (next < |slots| ==> Occupied(slots[next]))
  {
  }

  // ----- a run that loses a pair

  predicate NeverFails(n: nat) {
    false
  }

  lemma NothingFails(alloc: Allocator)
    requires alloc.fails == NeverFails
    ensures forall a, b :: alloc.NoFailure(a, b)
  {
  }

  lemma SizeIsPairs(m: StringMap)
    requires m.Valid()
    ensures m.size == |m.Contents()|
  {
    CountIsSize(m.pairs[..]);
  }

  lemma FirstPut(before: seq<Slot>, after: seq<Slot>, key: string, value: string)
    requires WellFormed(before) && |before| == 2 && before[0] == before[1] == FREE
    requires PutsInPlace(before, after, key, value)
    ensures |after| == 2 && IsAt(after, 0, key) && after[1] == FREE
  {
    assert !HasKey(before, key);
  }

  lemma SecondPut(before: seq<Slot>, after: seq<Slot>, key: string, value: string)
    requires |before| == 2 && Occupied(before[0]) && !IsAt(before, 0, key) && before[1] == FREE
    requires PutsInPlace(before, after, key, value)
    ensures |after| == 2 && after[0] == before[0] && IsAt(after, 1, key)
    ensures IsAt(before, 0, "a") ==> IsAt(after, 0, "a")
  {
    assert !HasKey(before, key);
  }

  lemma FirstFreed(before: seq<Slot>, after: seq<Slot>, key: string, other: string)
    requires |before| == 2 && IsAt(before, 0, key)
    requires IsAt(before, 1, other) && key != other && Frees(before, after, key)
    ensures |after| == 2 && after[0] == FREE && after[1] == before[1]
  {
  }

  lemma SecondLost(slots: seq<Slot>)
    requires WellFormed(slots) && |slots| == 2 && slots[0] == FREE
    ensures WellFormed(Resized(slots, 1)) && Pairs(Resized(slots, 1)) == map[]
  {
    ResizedAt(slots, 1);
    NoPairs(Resized(slots, 1));
  }

  /** A map as the run below has it: nothing else is live, and no request fails. */
  ghost predicate Alone(m: StringMap)
    reads m, m.pairs, m.alloc
  {
    m.alloc.fails == NeverFails && m.Valid() && m.alloc.Valid() && m.alloc.live == multiset{} + m.Owned()
  }

  method NewPair() returns (m: StringMap)
    ensures fresh(m) && fresh(m.pairs) && fresh(m.alloc) && Alone(m)
    ensures m.Contents() == map[] && m.pairs.Length == 2 && m.pairs[0] == m.pairs[1] == FREE
  {
    hide StringMap.Valid, StringMap.Owned, StringMap.Contents, Allocator.NoFailure;
    var alloc := new Allocator(NeverFails);
    NothingFails(alloc);
    var ret, made := InitMap(2, alloc, multiset{});
    m := made;
    hide Resized;
    ResizedAt([], 2);
    assert m.pairs[..][0] == FREE && m.pairs[..][1] == FREE;
  }

  method PutA(m: StringMap)
    requires Alone(m) && m.Contents() == map[] && m.pairs.Length == 2 && m.pairs[0] == m.pairs[1] == FREE
    modifies m, m.pairs, m.alloc
    ensures Alone(m) && m.pairs == old(m.pairs) && m.Contents() == map["a" := "1"]
    ensures IsAt(m.pairs[..], 0, "a") && m.pairs[1] == FREE
  {
    hide StringMap.Owned, StringMap.Contents, Allocator.NoFailure, PutsInPlace, IsAt, WellFormed, Count;
    NothingFails(m.alloc);
    SizeIsPairs(m);
    ghost var none := m.pairs[..];
    var ret := m.SetNoResize("a", "1", multiset{});
    FirstPut(none, m.pairs[..], "a", "1");
    assert m.pairs[..][1] == FREE;
  }

  /** Set "a", then "b", in a new map of capacity 2. */
  method TwoPairs() returns (m: StringMap)
    ensures fresh(m) && fresh(m.pairs) && fresh(m.alloc) && Alone(m)
    ensures m.Contents() == map["a" := "1", "b" := "2"]
    ensures m.pairs.Length == 2 && IsAt(m.pairs[..], 0, "a") && IsAt(m.pairs[..], 1, "b")
  {
    hide StringMap.Valid, StringMap.Owned, StringMap.Contents, Allocator.NoFailure, PutsInPlace, IsAt, Occupied;
    m := NewPair();
    PutA(m);
    NothingFails(m.alloc);
    SizeIsPairs(m);
    ghost var one := m.pairs[..];
    OnlyA(one);
    var ret := m.SetNoResize("b", "2", multiset{});
    SecondPut(one, m.pairs[..], "b", "2");
  }

  lemma OnlyA(slots: seq<Slot>)
    requires IsAt(slots, 0, "a")
    ensures Occupied(slots[0]) && !IsAt(slots, 0, "b")
  {
  }

  /** Then unset "a" and reserve 1, which is the size: every call succeeds, and the pair of "b" is gone. */
  method ReserveLosesPair() returns (m: StringMap, ret: Ret, ghost before: map<string, string>)
    ensures before == map["b" := "2"] && ret == Ok && m.size == 1 && m.pairs.Length == 1
    ensures WellFormed(m.pairs[..]) && Pairs(m.pairs[..]) == map[]
  {
    hide StringMap.Owned, Count, Pairs, WellFormed, SlotsBlocks, Lost, NothingLost, Resized, Frees, IsAt, Keys;
    m := TwoPairs();
    NothingFails(m.alloc);
    ghost var two := m.pairs[..];
    ret := m.Unset("a", multiset{});
    ghost var left := m.pairs[..];
    FirstFreed(two, left, "a", "b");
    before := m.Contents();
    SizeIsPairs(m);
    SecondLost(left);
    ResizedAt(left, 1);
    ret := m.Reserve(1, multiset{});
  }
}
