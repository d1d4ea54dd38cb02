/** src/array_list.c: a growable array over the allocator.

    The C handle whose `impl` pointer is NULL is a null `ArrayList?` here.  `data.Length` is the
    C field `capacity`; `implBlock` and `listBlock` are the two allocations behind the list.
 */
module ArrayLists {
  import opened Wrappers
  import opened Allocation

  /** The state of one list as a value: its two allocations, its capacity and its elements. */
  datatype ListState<T> = ListState(impl: Block, store: Block, capacity: nat, items: seq<T>) {
    predicate Valid() {
      1 <= capacity && |items| <= capacity
    }

    ghost function Owned(): multiset<Block> {
      multiset{impl} + multiset{store}
    }
  }

  // ----- the operations on a list held by value, as the hash map uses them for its buckets

  /** Two allocations; when the second fails the first is given back. */
  method InitList<T>(initialCapacity: nat, alloc: Allocator) returns (ret: Ret, list: Option<ListState<T>>)
    requires alloc.Valid()
    modifies alloc
    ensures alloc.Valid() && alloc.calls >= old(alloc.calls)
    ensures ret == BadAlloc <==>
            1 <= initialCapacity && (alloc.fails(old(alloc.calls)) || alloc.fails(old(alloc.calls) + 1))
    ensures ret == Ok <==> 1 <= initialCapacity && alloc.NoFailure(old(alloc.calls), alloc.calls)
    ensures alloc.calls <= old(alloc.calls) + 2 && (ret == Ok ==> alloc.calls == old(alloc.calls) + 2)
    ensures list.None? ==> alloc.live == old(alloc.live)
    ensures list.None? ==> ret == if initialCapacity < 1 then InvalidArgument else BadAlloc
    ensures list.Some? ==> ret == Ok && list.value.Valid() && list.value.capacity == initialCapacity
    ensures list.Some? ==> list.value.items == [] && alloc.live == old(alloc.live) + list.value.Owned()
  {
    if initialCapacity < 1 {
      return InvalidArgument, None;
    }
    var impl := alloc.Allocate();
    if impl.None? {
      return BadAlloc, None;
    }
    var store := alloc.Allocate();
    if store.None? {
      alloc.Deallocate(impl, old(alloc.live));
      return BadAlloc, None;
    }
    return Ok, Some(ListState(impl.value, store.value, initialCapacity, []));
  }

  method FiniList<T>(list: ListState<T>, alloc: Allocator, ghost rest: multiset<Block>)
    requires alloc.Valid() && alloc.live == rest + list.Owned()
    modifies alloc`live
    ensures alloc.Valid() && alloc.live == rest
  {
    alloc.Deallocate(Some(list.store), rest + multiset{list.impl});
    alloc.Deallocate(Some(list.impl), rest);
  }

  /** Appends at the end, doubling the store first when it is full. */
  method AddToList<T>(list: ListState<T>, x: T, alloc: Allocator, ghost rest: multiset<Block>)
    returns (ret: Ret, list': ListState<T>)
    requires list.Valid() && alloc.Valid() && alloc.live == rest + list.Owned()
    modifies alloc
    ensures alloc.Valid() && alloc.live == rest + list'.Owned() && alloc.calls >= old(alloc.calls)
    ensures list'.Valid()
    ensures ret == Ok || (ret == BadAlloc && list' == list)
    ensures ret == Ok ==> list'.items == list.items + [x]
    ensures ret == Ok ==> list'.capacity == if |list.items| == list.capacity then 2 * list.capacity else list.capacity
    ensures ret == BadAlloc <==> |list.items| == list.capacity && alloc.fails(old(alloc.calls))
    ensures alloc.NoFailure(old(alloc.calls), alloc.calls) <==> ret == Ok
    ensures alloc.calls == old(alloc.calls) + if |list.items| == list.capacity then 1 else 0
  {
    list' := list;
    if |list.items| + 1 > list.capacity {
      var store := alloc.Reallocate(Some(list.store), rest + multiset{list.impl});
      if store.None? {
        return BadAlloc, list;
      }
      list' := list.(store := store.value, capacity := 2 * list.capacity);
    }
    list' := list'.(items := list.items + [x]);
    ret := Ok;
  }

  // ----- the list in the heap, with its store changed in place

  class ArrayList<T(0)> {
    var data: array<T>
    var size: nat
    var impl: Block
    var store: Block

    ghost predicate Valid()
      reads this
    {
      1 <= data.Length && size <= data.Length
    }

    ghost function State(): (state: ListState<T>)
      reads this, data
      requires Valid()
      ensures state.Valid()
    {
      ListState(impl, store, data.Length, data[..size])
    }

    constructor (data: array<T>, impl: Block, store: Block)
      requires 1 <= data.Length
      ensures Valid() && this.data == data
      ensures State() == ListState(impl, store, data.Length, [])
    {
      this.data, this.size, this.impl, this.store := data, 0, impl, store;
    }

    method IncreaseCapacity(alloc: Allocator, ghost rest: multiset<Block>) returns (ret: Ret)
      requires Valid() && alloc.Valid() && alloc.live == rest + State().Owned()
      modifies this, alloc
      ensures Valid() && alloc.Valid() && alloc.live == rest + State().Owned() && alloc.calls == old(alloc.calls) + 1
      ensures ret == if alloc.fails(old(alloc.calls)) then BadAlloc else Ok
      ensures ret == BadAlloc ==> unchanged(this)
      ensures ret == Ok ==> fresh(data)
      ensures ret == Ok ==> State() == old(State()).(capacity := 2 * old(data.Length), store := store)
    {
      var newStore := alloc.Reallocate(Some(store), rest + multiset{impl});
      if newStore.None? {
        return BadAlloc;
      }
      Enlarge();
      store := newStore.value;
      ret := Ok;
    }

    method Enlarge()
      requires Valid()
      modifies this`data
      ensures Valid() && fresh(data) && State() == old(State()).(capacity := 2 * old(data.Length))
    {
      var bigger := new T[2 * data.Length];
      forall i | 0 <= i < size {
        bigger[i] := data[i];
      }
      assert bigger[..size] == data[..size];
      data := bigger;
    }

    method Add(x: T, alloc: Allocator, ghost rest: multiset<Block>) returns (ret: Ret)
      requires Valid() && alloc.Valid() && alloc.live == rest + State().Owned()
      modifies this, data, alloc
      ensures Valid() && alloc.Valid() && alloc.live == rest + State().Owned()
      ensures ret == Ok || ret == BadAlloc
      ensures ret == BadAlloc <==> old(size) == old(data.Length) && alloc.fails(old(alloc.calls))
      ensures ret == Ok ==> State().items == old(State()).items + [x]
      ensures ret == Ok ==>
                data.Length == if old(size) == old(data.Length) then 2 * old(data.Length) else old(data.Length)
      ensures ret != Ok ==> unchanged(this) && unchanged(data)
    {
      if size + 1 > data.Length {
        ret := IncreaseCapacity(alloc, rest);
        if ret != Ok {
          return;
        }
      }
      Put(x);
      ret := Ok;
    }

    method Put(x: T)
      requires Valid() && size < data.Length
      modifies this`size, data
      ensures Valid() && size == old(size) + 1 && State() == old(State()).(items := old(State()).items + [x])
    {
      data[size] := x;
      size := size + 1;
    }

    method Set(index: nat, x: T) returns (ret: Ret)
      requires Valid()
      modifies data
      ensures Valid()
      ensures ret == if index < size then Ok else InvalidArgument
      ensures State() == if ret == Ok then old(State()).(items := old(State()).items[index := x]) else old(State())
    {
      if size <= index {
        return InvalidArgument;
      }
      data[index] := x;
      ret := Ok;
    }

    /** Shifts the tail down by one (`memmove`: all reads before all writes). */
    method Remove(index: nat) returns (ret: Ret)
      requires Valid()
      modifies this`size, data
      ensures Valid()
      ensures ret == if index < old(size) then Ok else InvalidArgument
      ensures State() == if ret == Ok then old(State()).(items := Without(old(State()).items, index)) else old(State())
    {
      if size <= index {
        return InvalidArgument;
      }
      forall i | index <= i < size - 1 {
        data[i] := data[i + 1];
      }
      size := size - 1;
      ret := Ok;
    }

    method Get(index: nat) returns (ret: Ret, x: Option<T>)
      requires Valid()
      ensures index < size ==> ret == Ok && x == Some(State().items[index])
      ensures size <= index ==> ret == InvalidArgument && x == None
    {
      if size <= index {
        return InvalidArgument, None;
      }
      return Ok, Some(data[index]);
    }
  }

  function Without<T>(items: seq<T>, index: nat): seq<T> {
    if index < |items| then items[..index] + items[index + 1..] else items
  }
}
