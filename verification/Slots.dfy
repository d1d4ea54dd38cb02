/** The slot array of src/string_map.c as a value, and the finite map it stands for. */
module Slots {
  import opened Wrappers
  import opened Allocation

  /** A duplicated C string and its allocation. */
  datatype Text = Text(chars: string, block: Block)

  /** The pair of pointers of a slot, NULL when free. */
  datatype Slot = Slot(key: Option<Text>, value: Option<Text>)

  const FREE := Slot(None, None)

  predicate Occupied(s: Slot) {
    s.key.Some?
  }

  /** A value exactly where there is a key; no key twice, neither its text nor its address. */
  ghost predicate WellFormed(slots: seq<Slot>) {
    (forall i :: 0 <= i < |slots| ==> (slots[i].key.Some? <==> slots[i].value.Some?))
    && (forall i, j :: 0 <= i < j < |slots| && Occupied(slots[i]) && Occupied(slots[j]) ==>
                         && slots[i].key.value.chars != slots[j].key.value.chars
                         && slots[i].key.value.block != slots[j].key.value.block)
  }

  ghost predicate IsAt(slots: seq<Slot>, i: nat, key: string) {
    i < |slots| && Occupied(slots[i]) && slots[i].key.value.chars == key
  }

  ghost predicate HasKey(slots: seq<Slot>, key: string) {
    exists i: nat :: IsAt(slots, i, key)
  }

  ghost function Keys(slots: seq<Slot>): (keys: set<string>)
    ensures forall key :: key in keys <==> HasKey(slots, key)
  {
    var keys := set i | 0 <= i < |slots| && Occupied(slots[i]) :: slots[i].key.value.chars;
    assert forall i: nat, key :: IsAt(slots, i, key) ==> key in keys;
    assert forall key :: key in keys ==> HasKey(slots, key) by {
      forall key | key in keys ensures HasKey(slots, key) {
        var i :| 0 <= i < |slots| && Occupied(slots[i]) && slots[i].key.value.chars == key;
        assert IsAt(slots, i, key);
      }
    }
    keys
  }

  ghost function ValueAt(slots: seq<Slot>, key: string): string
    requires WellFormed(slots) && HasKey(slots, key)
  {
    var i: nat :| IsAt(slots, i, key);
    slots[i].value.value.chars
  }

  /** The finite map behind the slots. */
  ghost function Pairs(slots: seq<Slot>): map<string, string>
    requires WellFormed(slots)
  {
    map key | key in Keys(slots) :: ValueAt(slots, key)
  }

  lemma PairAt(slots: seq<Slot>, i: nat)
    requires WellFormed(slots) && i < |slots| && Occupied(slots[i])
    ensures slots[i].key.value.chars in Pairs(slots)
    ensures Pairs(slots)[slots[i].key.value.chars] == slots[i].value.value.chars
  {
    assert IsAt(slots, i, slots[i].key.value.chars);
  }

  ghost function Count(slots: seq<Slot>): nat {
    if slots == [] then 0 else Count(slots[..|slots| - 1]) + if Occupied(slots[|slots| - 1]) then 1 else 0
  }

  /** The number of occupied slots is the number of pairs. */
  lemma {:induction false} CountIsSize(slots: seq<Slot>)
    requires WellFormed(slots)
    ensures Count(slots) == |Pairs(slots)|
  {
    hide Keys, Pairs, WellFormed;
    PairsDomain(slots);
    if slots != [] {
      var init := slots[..|slots| - 1];
      InitIsWellFormed(slots);
      CountIsSize(init);
      PairsDomain(init);
      KeysSnoc(slots);
    }
  }

  lemma InitIsWellFormed(slots: seq<Slot>)
    requires WellFormed(slots) && slots != []
    ensures WellFormed(slots[..|slots| - 1])
  {
  }

  lemma PairsDomain(slots: seq<Slot>)
    requires WellFormed(slots)
    ensures Pairs(slots).Keys == Keys(slots) && |Pairs(slots)| == |Keys(slots)|
    ensures slots == [] ==> Keys(slots) == {}
  {
    hide Keys;
    assert Pairs(slots).Keys == Keys(slots);
    if slots == [] {
      assert Keys(slots) == {};
    }
  }

  lemma KeysSnoc(slots: seq<Slot>)
    requires WellFormed(slots) && slots != []
    ensures var init, last := slots[..|slots| - 1], slots[|slots| - 1];
            if Occupied(last) then
              last.key.value.chars !in Keys(init) && Keys(slots) == Keys(init) + {last.key.value.chars}
            else Keys(slots) == Keys(init)
  {
    hide Keys;
    var init, last := slots[..|slots| - 1], |slots| - 1;
    forall k ensures HasKey(slots, k) <==> HasKey(init, k) || IsAt(slots, last, k) {
      if i: nat :| IsAt(slots, i, k) {
        assert i < last ==> IsAt(init, i, k);
      }
      if i: nat :| IsAt(init, i, k) {
        assert IsAt(slots, i, k);
      }
    }
    assert Occupied(slots[last]) ==> forall i: nat :: i < last ==> !IsAt(slots, i, slots[last].key.value.chars);
    assert forall i: nat, k :: IsAt(init, i, k) ==> i < last && IsAt(slots, i, k);
  }

  lemma {:induction false} CountUpdate(slots: seq<Slot>, i: nat, s: Slot)
    requires i < |slots|
    ensures Count(slots[i := s]) ==
            Count(slots) + (if Occupied(s) then 1 else 0) - (if Occupied(slots[i]) then 1 else 0)
  {
    var init := slots[..|slots| - 1];
    if i < |slots| - 1 {
      CountUpdate(init, i, s);
      assert slots[i := s][..|slots| - 1] == init[i := s];
    } else {
      assert slots[i := s][..|slots| - 1] == init;
    }
  }

  /** A full array is one whose every slot is occupied. */
  lemma {:induction false} CountFull(slots: seq<Slot>)
    ensures Count(slots) <= |slots|
    ensures Count(slots) == |slots| <==> forall i :: 0 <= i < |slots| ==> Occupied(slots[i])
    ensures Count(slots) == 0 <==> forall i :: 0 <= i < |slots| ==> !Occupied(slots[i])
  {
    if slots != [] {
      var init := slots[..|slots| - 1];
      CountFull(init);
      assert forall i :: 0 <= i < |init| ==> slots[i] == init[i];
    }
  }

  // ----- the three changes

  lemma StillWellFormed(slots: seq<Slot>, i: nat, key: Text, value: Text)
    requires WellFormed(slots) && i < |slots|
    requires if Occupied(slots[i]) then slots[i].key.value == key else !HasKey(slots, key.chars)
    requires !Occupied(slots[i]) ==> forall j :: 0 <= j < |slots| && Occupied(slots[j]) ==>
                                                   slots[j].key.value.block != key.block
    ensures WellFormed(slots[i := Slot(Some(key), Some(value))])
  {
    assert forall j :: 0 <= j < |slots| && Occupied(slots[j]) ==> IsAt(slots, j, slots[j].key.value.chars);
  }

  lemma PairsStore(slots: seq<Slot>, i: nat, key: Text, value: Text)
    requires WellFormed(slots) && i < |slots|
    requires if Occupied(slots[i]) then slots[i].key.value == key else !HasKey(slots, key.chars)
    requires !Occupied(slots[i]) ==> forall j :: 0 <= j < |slots| && Occupied(slots[j]) ==>
                                                   slots[j].key.value.block != key.block
    ensures WellFormed(slots[i := Slot(Some(key), Some(value))])
    ensures Pairs(slots[i := Slot(Some(key), Some(value))]) == Pairs(slots)[key.chars := value.chars]
  {
    hide Keys;
    var after := slots[i := Slot(Some(key), Some(value))];
    StillWellFormed(slots, i, key, value);
    hide WellFormed;
    SameKeys(slots, after, i, key.chars, true);
    SameValues(slots, after, i);
    PairAt(after, i);
    assert Pairs(after).Keys == Pairs(slots).Keys + {key.chars};
  }

  lemma PairsClear(slots: seq<Slot>, i: nat)
    requires WellFormed(slots) && i < |slots| && Occupied(slots[i])
    ensures WellFormed(slots[i := FREE])
    ensures Pairs(slots[i := FREE]) == Pairs(slots) - {slots[i].key.value.chars}
  {
    var after := slots[i := FREE];
    SameKeys(slots, after, i, slots[i].key.value.chars, false);
    SameValues(slots, after, i);
  }

  lemma SameKeys(slots: seq<Slot>, after: seq<Slot>, i: nat, key: string, stored: bool)
    requires WellFormed(slots) && WellFormed(after) && i < |slots| == |after| && after == slots[i := after[i]]
    requires Occupied(after[i]) <==> stored
    requires stored ==> after[i].key.value.chars == key
    requires Occupied(slots[i]) ==> slots[i].key.value.chars == key
    requires stored || Occupied(slots[i])
    ensures Keys(after) == if stored then Keys(slots) + {key} else Keys(slots) - {key}
  {
    forall k ensures k in Keys(after) <==> k in (if stored then Keys(slots) + {key} else Keys(slots) - {key}) {
      if k != key {
        if j: nat :| IsAt(slots, j, k) {
          assert j != i && IsAt(after, j, k);
        }
        if j: nat :| IsAt(after, j, k) {
          assert j != i && IsAt(slots, j, k);
        }
      } else if stored {
        assert IsAt(after, i, k);
      } else {
        assert forall j: nat :: IsAt(slots, j, k) ==> j == i;
        assert forall j: nat :: IsAt(after, j, k) ==> j != i && IsAt(slots, j, k);
      }
    }
  }

  lemma SameValues(slots: seq<Slot>, after: seq<Slot>, i: nat)
    requires WellFormed(slots) && WellFormed(after) && i < |slots| == |after| && after == slots[i := after[i]]
    ensures forall k :: HasKey(slots, k) && HasKey(after, k) && !IsAt(after, i, k) && !IsAt(slots, i, k) ==>
                          ValueAt(slots, k) == ValueAt(after, k)
  {
    forall k | HasKey(slots, k) && HasKey(after, k) && !IsAt(after, i, k) && !IsAt(slots, i, k)
      ensures ValueAt(slots, k) == ValueAt(after, k)
    {
      var j: nat :| IsAt(slots, j, k);
      assert IsAt(after, j, k);
    }
  }

  function Resized(slots: seq<Slot>, n: nat): seq<Slot> {
    if n <= |slots| then slots[..n] else slots + seq(n - |slots|, _ => FREE)
  }

  /** No slot in use is cut off. */
  ghost predicate NothingLost(slots: seq<Slot>, n: nat) {
    forall i :: n <= i < |slots| ==> !Occupied(slots[i])
  }

  lemma ResizedAt(slots: seq<Slot>, n: nat)
    ensures |Resized(slots, n)| == n
    ensures forall i :: 0 <= i < n ==> Resized(slots, n)[i] == if i < |slots| then slots[i] else FREE
  {
  }

  lemma ResizedIsWellFormed(slots: seq<Slot>, n: nat)
    requires WellFormed(slots)
    ensures WellFormed(Resized(slots, n))
    ensures forall i: nat, k :: IsAt(Resized(slots, n), i, k) <==> i < n && IsAt(slots, i, k)
  {
    ResizedAt(slots, n);
  }

  /** Resizing keeps the pairs exactly when it cuts off no slot in use. */
  lemma ResizedKeeps(slots: seq<Slot>, n: nat)
    requires WellFormed(slots)
    ensures WellFormed(Resized(slots, n))
    ensures Pairs(Resized(slots, n)) == Pairs(slots) <==> NothingLost(slots, n)
  {
    hide Keys, Resized;
    ResizedIsWellFormed(slots, n);
    if NothingLost(slots, n) {
      KeptAll(slots, n);
    } else {
      var i: nat :| n <= i < |slots| && Occupied(slots[i]);
      PairAt(slots, i);
      assert forall j: nat :: IsAt(slots, j, slots[i].key.value.chars) ==> j == i;
      assert !HasKey(Resized(slots, n), slots[i].key.value.chars);
    }
  }

  lemma KeptAll(slots: seq<Slot>, n: nat)
    requires WellFormed(slots) && NothingLost(slots, n) && WellFormed(Resized(slots, n))
    ensures Pairs(Resized(slots, n)) == Pairs(slots)
  {
    hide Keys, WellFormed;
    ResizedAt(slots, n);
    ResizedIsWellFormed(slots, n);
    var after := Resized(slots, n);
    hide Resized;
    assert forall i: nat, k :: IsAt(slots, i, k) ==> IsAt(after, i, k);
    assert forall k :: HasKey(slots, k) <==> HasKey(after, k);
    forall k | HasKey(slots, k) ensures ValueAt(after, k) == ValueAt(slots, k) {
      var i: nat :| IsAt(slots, i, k);
      ValueIs(slots, i);
      ValueIs(after, i);
    }
    PairsDomain(slots);
    PairsDomain(after);
    assert Keys(slots) == Keys(after);
  }

  lemma ValueIs(slots: seq<Slot>, i: nat)
    requires WellFormed(slots) && i < |slots| && Occupied(slots[i])
    ensures IsAt(slots, i, slots[i].key.value.chars) && slots[i].value.Some?
    ensures ValueAt(slots, slots[i].key.value.chars) == slots[i].value.value.chars
  {
    assert IsAt(slots, i, slots[i].key.value.chars);
  }

  lemma NoPairs(slots: seq<Slot>)
    requires WellFormed(slots) && forall i :: 0 <= i < |slots| ==> !Occupied(slots[i])
    ensures Pairs(slots) == map[]
  {
    hide Keys;
    assert Keys(slots) == {};
  }

  /** A reserve below the last slot in use really loses a pair, although the size would fit. */
  lemma ShrinkingCanLose(key: Text, value: Text)
    ensures var slots := [FREE, Slot(Some(key), Some(value))];
            && WellFormed(slots) && Count(slots) == 1
            && Pairs(slots) == map[key.chars := value.chars] && Pairs(Resized(slots, 1)) == map[]
  {
    var slots := [FREE, Slot(Some(key), Some(value))];
    assert slots == [FREE, FREE][1 := slots[1]];
    NoPairs([FREE, FREE]);
    PairsStore([FREE, FREE], 1, key, value);
    CountUpdate([FREE, FREE], 1, slots[1]);
    CountFull([FREE, FREE]);
    ResizedAt(slots, 1);
    NoPairs(Resized(slots, 1));
  }

  // ----- the blocks behind the slots

  ghost function SlotBlocks(s: Slot): multiset<Block> {
    (if s.key.Some? then multiset{s.key.value.block} else multiset{})
    + (if s.value.Some? then multiset{s.value.value.block} else multiset{})
  }

  ghost function SlotsBlocks(slots: seq<Slot>): multiset<Block> {
    Sum(s => SlotBlocks(s), slots)
  }

  lemma BlocksReplace(slots: seq<Slot>, i: nat, s: Slot)
    requires i < |slots|
    ensures SlotsBlocks(slots[i := s]) + SlotBlocks(slots[i]) == SlotsBlocks(slots) + SlotBlocks(s)
    ensures SlotBlocks(slots[i]) <= SlotsBlocks(slots)
  {
    var f := x => SlotBlocks(x);
    SplitAt(slots, i);
    SplitAt(slots[i := s], i);
    SameSides(slots, i, s);
    hide Sum;
    SumInsert(f, slots[..i], slots[i + 1..], slots[i]);
    SumInsert(f, slots[..i], slots[i + 1..], s);
  }

  lemma {:induction false} NoBlocks(slots: seq<Slot>)
    requires forall i :: 0 <= i < |slots| ==> slots[i] == FREE
    ensures SlotsBlocks(slots) == multiset{}
  {
    if slots != [] {
      NoBlocks(slots[1..]);
    }
  }

  /** What a resize leaves behind: the blocks of the slots it cuts off. */
  ghost function Lost(slots: seq<Slot>, n: nat): multiset<Block> {
    if n <= |slots| then SlotsBlocks(slots[n..]) else multiset{}
  }

  lemma BlocksResize(slots: seq<Slot>, n: nat)
    ensures SlotsBlocks(slots) == SlotsBlocks(Resized(slots, n)) + Lost(slots, n)
    ensures WellFormed(slots) && NothingLost(slots, n) ==> Lost(slots, n) == multiset{}
  {
    if n <= |slots| {
      assert slots == slots[..n] + slots[n..];
      SumConcat(s => SlotBlocks(s), slots[..n], slots[n..]);
      if WellFormed(slots) && NothingLost(slots, n) {
        assert forall i :: n <= i < |slots| ==> slots[i] == FREE;
        NoBlocks(slots[n..]);
      }
    } else {
      var more := seq(n - |slots|, _ => FREE);
      SumConcat(s => SlotBlocks(s), slots, more);
      NoBlocks(more);
    }
  }

  /** Blocks in the ledger are handed out once, so a new one is none of these. */
  lemma NewKeyBlock(slots: seq<Slot>, block: Block)
    requires block !in SlotsBlocks(slots)
    ensures forall j :: 0 <= j < |slots| && Occupied(slots[j]) ==> slots[j].key.value.block != block
  {
    hide SlotsBlocks;
    forall j | 0 <= j < |slots| && Occupied(slots[j])
      ensures slots[j].key.value.block != block
    {
      BlocksReplace(slots, j, FREE);
      assert slots[j].key.value.block in SlotBlocks(slots[j]);
    }
  }
}
