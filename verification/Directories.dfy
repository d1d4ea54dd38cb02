/** `rcutils_calculate_directory_size_with_recursion` of src/filesystem.c over a finite file tree:
    a worklist of directories instead of recursion.
 */
module Directories {
  import opened Numbers
  import opened Wrappers
  import opened Allocation

  /** Sizes are 64-bit. */
  function Wrap(size: nat): nat {
    size % SIZE_MODULUS
  }

  lemma WrapIs(size: nat)
    ensures Wrap(size) == size % 0x1_0000_0000_0000_0000
  {
  }

  /** What a directory lists: itself, its parent, and its entries.  `Special` is anything that is
      neither a directory nor a regular file; its size counts as 0. */
  datatype Item = Here | Parent | Entry(name: string, node: Node)

  datatype Node = File(size: nat) | Special | Dir(items: seq<Item>)

  predicate IsDirectory(item: Item) {
    item.Entry? && item.node.Dir?
  }

  function FileSize(item: Item): nat {
    if item.Entry? && item.node.File? then item.node.size else 0
  }

  predicate Within(depth: nat, maxDepth: nat) {
    maxDepth == 0 || depth <= maxDepth
  }

  /** Every directory lists something, at least itself. */
  predicate WellListed(node: Node)
    decreases node, 1
  {
    node.Dir? ==> node.items != [] && AllWellListed(node.items)
  }

  predicate AllWellListed(items: seq<Item>)
    decreases items, 0
  {
    items != [] ==>
      var last := items[|items| - 1];
      AllWellListed(items[..|items| - 1]) && (last.Entry? ==> WellListed(last.node))
  }

  predicate Found(item: Item, depth: nat, maxDepth: nat) {
    IsDirectory(item) && Within(depth + 1, maxDepth)
  }

  // ----- the specification

  /** The sizes of the files in a directory and in the directories below it, down to `maxDepth`. */
  function DirSize(dir: Node, depth: nat, maxDepth: nat): nat
    requires dir.Dir?
    decreases dir, 1
  {
    ItemsSize(dir.items, depth, maxDepth)
  }

  function ItemsSize(items: seq<Item>, depth: nat, maxDepth: nat): nat
    decreases items, 0
  {
    if items == [] then 0
    else
      var last := items[|items| - 1];
      ItemsSize(items[..|items| - 1], depth, maxDepth) + FileSize(last) +
      (if Found(last, depth, maxDepth) then DirSize(last.node, depth + 1, maxDepth) else 0)
  }

  datatype Visit = Visit(path: string, dir: Node, depth: nat)

  function Join(path: string, name: string): string {
    path + "/" + name
  }

  /** The directories to visit: each before those below it, later entries first. */
  function Preorder(v: Visit, maxDepth: nat): seq<Visit>
    requires v.dir.Dir?
    decreases v.dir, 1
  {
    [v] + Below(v.path, v.dir.items, v.depth, maxDepth)
  }

  function Below(path: string, items: seq<Item>, depth: nat, maxDepth: nat): seq<Visit>
    decreases items, 0
  {
    if items == [] then []
    else
      var last := items[|items| - 1];
      (if Found(last, depth, maxDepth)
       then Preorder(Visit(Join(path, last.name), last.node, depth + 1), maxDepth) else [])
      + Below(path, items[..|items| - 1], depth, maxDepth)
  }

  /** The files directly in a directory. */
  function OwnBytes(items: seq<Item>): nat {
    if items == [] then 0 else OwnBytes(items[..|items| - 1]) + FileSize(items[|items| - 1])
  }

  function BytesOf(visits: seq<Visit>): nat
    requires forall i :: 0 <= i < |visits| ==> visits[i].dir.Dir?
  {
    if visits == [] then 0 else OwnBytes(visits[0].dir.items) + BytesOf(visits[1..])
  }

  lemma {:induction false} BytesOfConcat(a: seq<Visit>, b: seq<Visit>)
    requires forall i :: 0 <= i < |a| ==> a[i].dir.Dir?
    requires forall i :: 0 <= i < |b| ==> b[i].dir.Dir?
    ensures BytesOf(a + b) == BytesOf(a) + BytesOf(b)
  {
    if a == [] {
      assert a + b == b;
    } else {
      BytesOfConcat(a[1..], b);
      assert (a + b)[1..] == a[1..] + b;
    }
  }

  /** What holds of each directory visited. */
  ghost predicate GoodVisits(visits: seq<Visit>, maxDepth: nat) {
    forall i :: 0 <= i < |visits| ==> visits[i].dir.Dir? && Within(visits[i].depth, maxDepth)
  }

  /** The recursive size is that of the files directly in the directories visited, and no
      directory deeper than the limit is visited. */
  lemma {:induction false} SizeIsOfVisits(v: Visit, maxDepth: nat)
    requires v.dir.Dir? && Within(v.depth, maxDepth)
    ensures GoodVisits(Preorder(v, maxDepth), maxDepth)
    ensures DirSize(v.dir, v.depth, maxDepth) == BytesOf(Preorder(v, maxDepth))
    decreases v.dir, 1
  {
    SizeIsOfBelow(v.path, v.dir.items, v.depth, maxDepth);
  }

  lemma {:induction false} SizeIsOfBelow(path: string, items: seq<Item>, depth: nat, maxDepth: nat)
    ensures GoodVisits(Below(path, items, depth, maxDepth), maxDepth)
    ensures ItemsSize(items, depth, maxDepth) == OwnBytes(items) + BytesOf(Below(path, items, depth, maxDepth))
    decreases items, 0
  {
    if items != [] {
      var rest, last := items[..|items| - 1], items[|items| - 1];
      SizeIsOfBelow(path, rest, depth, maxDepth);
      if Found(last, depth, maxDepth) {
        var v := Visit(Join(path, last.name), last.node, depth + 1);
        SizeIsOfVisits(v, maxDepth);
        BytesOfConcat(Preorder(v, maxDepth), Below(path, rest, depth, maxDepth));
      } else {
        assert Below(path, items, depth, maxDepth) == Below(path, rest, depth, maxDepth);
      }
    }
  }

  /** Every directory within the limit and listed in a visited one is visited. */
  ghost predicate Closed(visits: seq<Visit>, all: seq<Visit>, maxDepth: nat) {
    forall i :: 0 <= i < |visits| && visits[i].dir.Dir? ==>
                  Listing(visits[i], visits[i].dir.items, all, maxDepth)
  }

  ghost predicate Listing(v: Visit, items: seq<Item>, all: seq<Visit>, maxDepth: nat) {
    forall k :: 0 <= k < |items| && Found(items[k], v.depth, maxDepth) ==>
                  Visit(Join(v.path, items[k].name), items[k].node, v.depth + 1) in all
  }

  lemma {:induction false} VisitsAreClosed(v: Visit, maxDepth: nat)
    requires v.dir.Dir?
    ensures v in Preorder(v, maxDepth)
    ensures Closed(Preorder(v, maxDepth), Preorder(v, maxDepth), maxDepth)
    decreases v.dir, 1
  {
    BelowIsClosed(v, v.dir.items, maxDepth);
  }

  lemma {:induction false} BelowIsClosed(v: Visit, items: seq<Item>, maxDepth: nat)
    ensures Listing(v, items, Below(v.path, items, v.depth, maxDepth), maxDepth)
    ensures Closed(Below(v.path, items, v.depth, maxDepth), Below(v.path, items, v.depth, maxDepth), maxDepth)
    decreases items, 0
  {
    if items != [] {
      var rest, last := items[..|items| - 1], items[|items| - 1];
      BelowIsClosed(v, rest, maxDepth);
      var here: seq<Visit> := [];
      if Found(last, v.depth, maxDepth) {
        var w := Visit(Join(v.path, last.name), last.node, v.depth + 1);
        VisitsAreClosed(w, maxDepth);
        here := Preorder(w, maxDepth);
      }
      var later := Below(v.path, rest, v.depth, maxDepth);
      assert Below(v.path, items, v.depth, maxDepth) == here + later;
      hide Closed, Listing, Preorder, Below;
      ListingGrows(v, items, later, here + later, maxDepth);
      NothingIsClosed(maxDepth);
      ClosedConcat(here, later, maxDepth);
    }
  }

  lemma NothingIsClosed(maxDepth: nat)
    ensures Closed([], [], maxDepth)
  {
  }

  lemma ClosedConcat(a: seq<Visit>, b: seq<Visit>, maxDepth: nat)
    requires Closed(a, a, maxDepth) && Closed(b, b, maxDepth)
    ensures Closed(a + b, a + b, maxDepth)
  {
  }

  lemma ListingGrows(v: Visit, items: seq<Item>, some: seq<Visit>, all: seq<Visit>, maxDepth: nat)
    requires items != [] && Listing(v, items[..|items| - 1], some, maxDepth)
    requires forall w :: w in some ==> w in all
    requires var last := items[|items| - 1];
             Found(last, v.depth, maxDepth) ==> Visit(Join(v.path, last.name), last.node, v.depth + 1) in all
    ensures Listing(v, items, all, maxDepth)
  {
    assert forall k :: 0 <= k < |items| - 1 ==> items[k] == items[..|items| - 1][k];
  }

  // ----- each directory once

  /** What a file system promises: in a directory no name occurs twice, and no name has a slash. */
  predicate WellNamed(items: seq<Item>)
    decreases items
  {
    items != [] ==>
      var rest, last := items[..|items| - 1], items[|items| - 1];
      && WellNamed(rest)
      && (last.Entry? ==>
            && '/' !in last.name && !HasName(rest, last.name)
            && (last.node.Dir? ==> WellNamed(last.node.items)))
  }

  predicate HasName(items: seq<Item>, name: string) {
    exists k :: 0 <= k < |items| && items[k].Entry? && items[k].name == name
  }

  /** `p` is the path `q` or a path below it. */
  predicate Under(p: string, q: string) {
    q <= p && (|q| < |p| ==> p[|q|] == '/')
  }

  ghost predicate AllUnder(visits: seq<Visit>, q: string) {
    forall i :: 0 <= i < |visits| ==> Under(visits[i].path, q)
  }

  /** Every one of these paths goes through one of the names in `items`. */
  ghost predicate AllThrough(visits: seq<Visit>, path: string, items: seq<Item>) {
    forall i :: 0 <= i < |visits| ==> Through(visits[i].path, path, items)
  }

  ghost predicate Through(p: string, path: string, items: seq<Item>) {
    exists name :: HasName(items, name) && '/' !in name && Under(p, Join(path, name))
  }

  ghost predicate Distinct(visits: seq<Visit>) {
    forall i, j :: 0 <= i < j < |visits| ==> visits[i].path != visits[j].path
  }

  lemma DistinctConcat(a: seq<Visit>, b: seq<Visit>)
    requires Distinct(a) && Distinct(b)
    requires forall i, j :: 0 <= i < |a| && 0 <= j < |b| ==> a[i].path != b[j].path
    ensures Distinct(a + b)
  {
  }

  lemma OneWay(p: string, path: string, a: string, b: string)
    requires '/' !in a && '/' !in b && Under(p, Join(path, a)) && Under(p, Join(path, b))
    ensures a == b
  {
    var n := |path| + 1;
    assert p[n..][..|a|] == a && p[n..][..|b|] == b;
    assert forall i :: 0 <= i < |a| ==> p[n + i] == a[i];
    assert forall i :: 0 <= i < |b| ==> p[n + i] == b[i];
    assert (n + |a| < |p| ==> p[n + |a|] == '/') && (n + |b| < |p| ==> p[n + |b|] == '/');
  }

  lemma UnderTwice(p: string, path: string, name: string)
    requires Under(p, Join(path, name))
    ensures Under(p, path) && p != path
  {
    assert Join(path, name)[..|path|] == path && Join(path, name)[|path|] == '/';
  }

  /** In a well-named tree no two visits have the same path: every directory is read once. */
  lemma {:induction false} VisitsAreDistinct(v: Visit, maxDepth: nat)
    requires v.dir.Dir? && WellNamed(v.dir.items)
    ensures Distinct(Preorder(v, maxDepth)) && AllUnder(Preorder(v, maxDepth), v.path)
    decreases v.dir, 1
  {
    var below := Below(v.path, v.dir.items, v.depth, maxDepth);
    BelowIsDistinct(v.path, v.dir.items, v.depth, maxDepth);
    forall i | 0 <= i < |below| ensures Under(below[i].path, v.path) && below[i].path != v.path {
      assert Through(below[i].path, v.path, v.dir.items);
      var name :| HasName(v.dir.items, name) && '/' !in name && Under(below[i].path, Join(v.path, name));
      UnderTwice(below[i].path, v.path, name);
    }
    DistinctConcat([v], below);
  }

  lemma {:induction false} BelowIsDistinct(path: string, items: seq<Item>, depth: nat, maxDepth: nat)
    requires WellNamed(items)
    ensures Distinct(Below(path, items, depth, maxDepth))
    ensures AllThrough(Below(path, items, depth, maxDepth), path, items)
    decreases items, 0
  {
    if items != [] {
      var rest, last := items[..|items| - 1], items[|items| - 1];
      BelowIsDistinct(path, rest, depth, maxDepth);
      ThroughMore(Below(path, rest, depth, maxDepth), path, rest, items);
      if Found(last, depth, maxDepth) {
        var w := Visit(Join(path, last.name), last.node, depth + 1);
        VisitsAreDistinct(w, maxDepth);
        Apart(Preorder(w, maxDepth), Below(path, rest, depth, maxDepth), path, rest, last.name);
        ThroughLast(Preorder(w, maxDepth), path, items, last.name);
        ThroughConcat(Preorder(w, maxDepth), Below(path, rest, depth, maxDepth), path, items);
      } else {
        assert Below(path, items, depth, maxDepth) == Below(path, rest, depth, maxDepth);
      }
    }
  }

  lemma ThroughMore(visits: seq<Visit>, path: string, rest: seq<Item>, items: seq<Item>)
    requires AllThrough(visits, path, rest) && items != [] && rest == items[..|items| - 1]
    ensures AllThrough(visits, path, items)
  {
    forall i | 0 <= i < |visits| ensures Through(visits[i].path, path, items) {
      var name :| HasName(rest, name) && '/' !in name && Under(visits[i].path, Join(path, name));
      var k :| 0 <= k < |rest| && rest[k].Entry? && rest[k].name == name;
      assert items[k].name == name;
    }
  }

  lemma ThroughLast(visits: seq<Visit>, path: string, items: seq<Item>, name: string)
    requires AllUnder(visits, Join(path, name)) && '/' !in name
    requires items != [] && items[|items| - 1].Entry? && items[|items| - 1].name == name
    ensures AllThrough(visits, path, items)
  {
    assert HasName(items, name);
    forall i | 0 <= i < |visits| ensures Through(visits[i].path, path, items) {
    }
  }

  lemma ThroughConcat(a: seq<Visit>, b: seq<Visit>, path: string, items: seq<Item>)
    requires AllThrough(a, path, items) && AllThrough(b, path, items)
    ensures AllThrough(a + b, path, items)
  {
  }

  lemma Apart(a: seq<Visit>, b: seq<Visit>, path: string, rest: seq<Item>, name: string)
    requires Distinct(a) && Distinct(b) && AllUnder(a, Join(path, name)) && AllThrough(b, path, rest)
    requires '/' !in name && !HasName(rest, name)
    ensures Distinct(a + b)
  {
    forall i, j | 0 <= i < |a| && 0 <= j < |b| ensures a[i].path != b[j].path {
      var other :| HasName(rest, other) && '/' !in other && Under(b[j].path, Join(path, other));
      if a[i].path == b[j].path {
        OneWay(a[i].path, path, name, other);
      }
    }
    DistinctConcat(a, b);
  }

  // ----- the worklist

  datatype ListNode = ListNode(visit: Visit, block: Block, pathBlock: Block)

  ghost predicate AllDirs(list: seq<ListNode>) {
    forall n :: 0 <= n < |list| ==> list[n].visit.dir.Dir? && WellListed(list[n].visit.dir)
  }

  ghost function ListSize(list: seq<ListNode>, maxDepth: nat): nat
    requires AllDirs(list)
  {
    if list == [] then 0 else DirSize(list[0].visit.dir, list[0].visit.depth, maxDepth) + ListSize(list[1..], maxDepth)
  }

  ghost function ListVisits(list: seq<ListNode>, maxDepth: nat): seq<Visit>
    requires AllDirs(list)
  {
    if list == [] then [] else Preorder(list[0].visit, maxDepth) + ListVisits(list[1..], maxDepth)
  }

  lemma {:induction false} ListConcat(a: seq<ListNode>, b: seq<ListNode>, maxDepth: nat)
    requires AllDirs(a) && AllDirs(b)
    ensures AllDirs(a + b)
    ensures ListSize(a + b, maxDepth) == ListSize(a, maxDepth) + ListSize(b, maxDepth)
    ensures ListVisits(a + b, maxDepth) == ListVisits(a, maxDepth) + ListVisits(b, maxDepth)
  {
    hide DirSize, Preorder, WellListed;
    if a == [] {
      assert a + b == b;
    } else {
      ListConcat(a[1..], b, maxDepth);
      hide ListSize, ListVisits;
      ListCons(a[0], a[1..], maxDepth);
      ListCons(a[0], a[1..] + b, maxDepth);
      assert a == [a[0]] + a[1..] && a + b == [a[0]] + (a[1..] + b);
    }
  }

  ghost function NodeBlocks(list: seq<ListNode>): multiset<Block> {
    Sum(n => OwnBlocks(n), list)
  }

  ghost function OwnBlocks(n: ListNode): multiset<Block> {
    multiset{n.block} + multiset{n.pathBlock}
  }

  lemma NodeBlocksPeel(list: seq<ListNode>)
    requires list != []
    ensures NodeBlocks(list) == OwnBlocks(list[0]) + NodeBlocks(list[1..])
  {
  }

  lemma NodeBlocksInsert(list: seq<ListNode>, n: ListNode)
    requires list != []
    ensures NodeBlocks([list[0], n] + list[1..]) == NodeBlocks(list) + OwnBlocks(n)
  {
    SumInsert(x => OwnBlocks(x), [list[0]], list[1..], n);
    assert [list[0]] + [n] + list[1..] == [list[0], n] + list[1..] && [list[0]] + list[1..] == list;
  }

  // ----- the worklist as the linked list that it is

  class DirNode {
    const entry: ListNode
    var next: DirNode?

    constructor (entry: ListNode, next: DirNode?)
      ensures this.entry == entry && this.next == next
    {
      this.entry, this.next := entry, next;
    }
  }

  ghost predicate Chain(first: DirNode?, nodes: seq<DirNode>, list: seq<ListNode>)
    reads nodes
  {
    |nodes| == |list| &&
    if nodes == [] then first == null
    else first == nodes[0] && first !in nodes[1..] && first.entry == list[0] && Chain(first.next, nodes[1..], list[1..])
  }

  class DirList {
    var head: DirNode?
    ghost var nodes: seq<DirNode>
    ghost var list: seq<ListNode>
    ghost var repr: set<DirNode>

    ghost predicate Valid()
      reads this, repr
    {
      (forall n :: n in nodes ==> n in repr) && Chain(head, nodes, list)
    }

    method First() returns (n: ListNode)
      requires Valid() && list != []
      ensures n == list[0]
    {
      n := head.entry;
    }

    constructor (n: ListNode)
      ensures Valid() && list == [n] && fresh(repr)
    {
      var node := new DirNode(n, null);
      head, nodes, list, repr := node, [node], [n], {node};
    }

    /** A new directory goes right behind the one being read. */
    method InsertBehindHead(n: ListNode)
      requires Valid() && list != []
      modifies this, repr
      ensures Valid() && list == [old(list)[0], n] + old(list)[1..]
      ensures fresh(repr - old(repr))
    {
      var node := new DirNode(n, head.next);
      head.next := node;
      nodes := [nodes[0], node] + nodes[1..];
      list := [list[0], n] + list[1..];
      repr := repr + {node};
      assert nodes[1..] == [node] + old(nodes)[1..] && list[1..] == [n] + old(list)[1..];
      assert [node] + old(nodes)[1..] == nodes[1..];
      assert nodes[1..][1..] == old(nodes)[1..] && list[1..][1..] == old(list)[1..];
    }

    method RemoveFirst(alloc: Allocator, ghost rest: multiset<Block>)
      requires Valid() && list != []
      requires alloc.Valid() && alloc.live == rest + NodeBlocks(list)
      modifies this, alloc`live
      ensures Valid() && list == old(list)[1..] && repr == old(repr) && (head == null <==> list == [])
      ensures alloc.Valid() && alloc.live == rest + NodeBlocks(list)
    {
      var first := head;
      NodeBlocksPeel(list);
      head := first.next;
      nodes, list := nodes[1..], list[1..];
      hide NodeBlocks;
      alloc.Deallocate(Some(first.entry.pathBlock), rest + NodeBlocks(list) + multiset{first.entry.block});
      alloc.Deallocate(Some(first.entry.block), rest + NodeBlocks(list));
    }

    method Free(alloc: Allocator, ghost rest: multiset<Block>)
      requires Valid() && list != []
      requires alloc.Valid() && alloc.live == rest + NodeBlocks(list)
      modifies this, alloc`live
      ensures alloc.Valid() && alloc.live == rest && repr == old(repr)
    {
      RemoveFirst(alloc, rest);
      while head != null
        invariant Valid() && alloc.Valid() && alloc.live == rest + NodeBlocks(list) && repr == old(repr)
        decreases |list|
      {
        RemoveFirst(alloc, rest);
      }
    }
  }

  // ----- one directory

  datatype DirIter = DirIter(block: Block, stateBlock: Block)

  ghost function IterBlocks(iter: DirIter): multiset<Block> {
    multiset{iter.block} + multiset{iter.stateBlock}
  }

  method StartIterator(readable: bool, alloc: Allocator) returns (iter: Option<DirIter>)
    requires alloc.Valid()
    modifies alloc
    ensures alloc.Valid() && alloc.calls >= old(alloc.calls)
    ensures alloc.live == old(alloc.live) + (if iter.Some? then IterBlocks(iter.value) else multiset{})
    ensures iter.None? ==> !readable || !alloc.NoFailure(old(alloc.calls), alloc.calls)
    ensures iter.Some? ==> readable
  {
    ghost var rest := alloc.live;
    var block := alloc.Allocate();
    if block.None? {
      return None;
    }
    var state := alloc.Allocate();
    if state.None? || !readable {
      alloc.Deallocate(state, rest + Blocks(block));
      alloc.Deallocate(block, rest);
      return None;
    }
    return Some(DirIter(block.value, state.value));
  }

  method EndIterator(iter: DirIter, alloc: Allocator, ghost rest: multiset<Block>)
    requires alloc.Valid() && alloc.live == rest + IterBlocks(iter)
    modifies alloc`live
    ensures alloc.Valid() && alloc.live == rest
  {
    alloc.Deallocate(Some(iter.stateBlock), rest + multiset{iter.block});
    alloc.Deallocate(Some(iter.block), rest);
  }

  /** The list after `item` was looked at in the directory at its head. */
  ghost predicate Listed(before: seq<ListNode>, after: seq<ListNode>, item: Item, maxDepth: nat)
    requires before != []
  {
    if Found(item, before[0].visit.depth, maxDepth) then
      exists n: ListNode ::
        after == [before[0], n] + before[1..]
        && n.visit == Visit(Join(before[0].visit.path, item.name), item.node, before[0].visit.depth + 1)
    else after == before
  }

  lemma ListedIs(before: seq<ListNode>, after: seq<ListNode>, item: Item, maxDepth: nat, n: ListNode)
    requires before != [] && Found(item, before[0].visit.depth, maxDepth)
    requires after == [before[0], n] + before[1..]
    requires n.visit == Visit(Join(before[0].visit.path, item.name), item.node, before[0].visit.depth + 1)
    ensures Listed(before, after, item, maxDepth) && after != []
  {
  }

  lemma ListedCases(list: seq<ListNode>, item: Item, maxDepth: nat)
    requires list != []
    ensures !Found(item, list[0].visit.depth, maxDepth) ==> Listed(list, list, item, maxDepth)
    ensures !item.Entry? || IsDirectory(item) ==> FileSize(item) == 0
  {
  }

  method AddDirectory(visit: Visit, pathBlock: Block, dirs: DirList, alloc: Allocator, ghost rest: multiset<Block>)
    returns (ret: Ret, ghost n: ListNode)
    requires dirs.Valid() && dirs.list != []
    requires alloc.Valid() && alloc.live == rest + NodeBlocks(dirs.list) + multiset{pathBlock}
    modifies dirs, dirs.repr, alloc
    ensures dirs.Valid() && fresh(dirs.repr - old(dirs.repr))
    ensures alloc.Valid() && alloc.live == rest + NodeBlocks(dirs.list) && alloc.calls >= old(alloc.calls)
    ensures ret == Ok || (ret == BadAlloc && !alloc.NoFailure(old(alloc.calls), alloc.calls))
    ensures ret == Ok ==> dirs.list == [old(dirs.list)[0], n] + old(dirs.list)[1..] && n.visit == visit
    ensures ret == BadAlloc ==> dirs.list == old(dirs.list)
  {
    hide NodeBlocks, Chain, Sum, Preorder, WellListed, Below;
    var block := alloc.Allocate();
    if block.None? {
      alloc.Deallocate(Some(pathBlock), rest + NodeBlocks(dirs.list));
      return BadAlloc, ListNode(visit, 0, pathBlock);
    }
    var node := ListNode(visit, block.value, pathBlock);
    NodeBlocksInsert(dirs.list, node);
    dirs.InsertBehindHead(node);
    return Ok, node;
  }

  method CheckAndCalculateSize(item: Item, size: nat, maxDepth: nat, dirs: DirList, alloc: Allocator,
                               ghost rest: multiset<Block>)
    returns (ret: Ret, newSize: nat)
    requires size < SIZE_MODULUS
    requires dirs.Valid() && dirs.list != []
    requires alloc.Valid() && alloc.live == rest + NodeBlocks(dirs.list)
    modifies dirs, dirs.repr, alloc
    ensures dirs.Valid() && fresh(dirs.repr - old(dirs.repr))
    ensures alloc.Valid() && alloc.live == rest + NodeBlocks(dirs.list) && alloc.calls >= old(alloc.calls)
    ensures ret == Ok || (ret == BadAlloc && !alloc.NoFailure(old(alloc.calls), alloc.calls))
    ensures ret == Ok ==> newSize == Wrap(size + FileSize(item)) && newSize < SIZE_MODULUS
    ensures dirs.list != [] && (ret == Ok ==> Listed(old(dirs.list), dirs.list, item, maxDepth))
  {
    hide NodeBlocks, Chain, Sum, Listed, Preorder, WellListed, Below, FileSize;
    ListedCases(dirs.list, item, maxDepth);
    newSize := size;
    if !item.Entry? {
      return Ok, newSize;
    }
    var pathBlock := alloc.Allocate();
    if pathBlock.None? {
      return BadAlloc, newSize;
    }
    var first := dirs.First();
    if IsDirectory(item) {
      if Within(first.visit.depth + 1, maxDepth) {
        ghost var n;
        ret, n := AddDirectory(Visit(Join(first.visit.path, item.name), item.node, first.visit.depth + 1),
                               pathBlock.value, dirs, alloc, rest);
        if ret == Ok {
          ListedIs(old(dirs.list), dirs.list, item, maxDepth, n);
        }
        return ret, newSize;
      }
    } else {
      newSize := Wrap(newSize + FileSize(item));
    }
    alloc.Deallocate(pathBlock, rest + NodeBlocks(dirs.list));
    return Ok, newSize;
  }

  /** `kids` are the directories found among `items`, and `bytes` the sizes of the files. */
  ghost predicate Queued(kids: seq<ListNode>, bytes: nat, here: Visit, items: seq<Item>, maxDepth: nat) {
    AllDirs(kids)
    && bytes + ListSize(kids, maxDepth) == ItemsSize(items, here.depth, maxDepth)
    && ListVisits(kids, maxDepth) == Below(here.path, items, here.depth, maxDepth)
  }

  lemma {:induction false} WellListedAt(items: seq<Item>, k: nat)
    requires AllWellListed(items) && k < |items|
    ensures items[k].Entry? ==> WellListed(items[k].node)
  {
    if k < |items| - 1 {
      WellListedAt(items[..|items| - 1], k);
    }
  }

  lemma PrefixGrows(items: seq<Item>, k: nat)
    requires k < |items|
    ensures items[..k + 1] != [] && items[..k + 1][..k] == items[..k] && items[..k + 1][k] == items[k]
  {
  }

  lemma ListCons(n: ListNode, list: seq<ListNode>, maxDepth: nat)
    requires n.visit.dir.Dir? && WellListed(n.visit.dir) && AllDirs(list)
    ensures AllDirs([n] + list)
    ensures ListSize([n] + list, maxDepth) == DirSize(n.visit.dir, n.visit.depth, maxDepth) + ListSize(list, maxDepth)
    ensures ListVisits([n] + list, maxDepth) == Preorder(n.visit, maxDepth) + ListVisits(list, maxDepth)
  {
    assert ([n] + list)[1..] == list;
  }

  lemma QueuedStep(kids: seq<ListNode>, bytes: nat, first: ListNode, tail: seq<ListNode>, after: seq<ListNode>,
                   items: seq<Item>, k: nat, maxDepth: nat)
    returns (more: seq<ListNode>)
    requires AllWellListed(items) && k < |items|
    requires Queued(kids, bytes, first.visit, items[..k], maxDepth)
    requires Listed([first] + kids + tail, after, items[k], maxDepth)
    ensures after == [first] + more + tail
    ensures Queued(more, bytes + FileSize(items[k]), first.visit, items[..k + 1], maxDepth)
  {
    hide WellListed, AllWellListed, Preorder, DirSize, ListVisits, ListSize, AllDirs, FileSize;
    var before := [first] + kids + tail;
    PrefixGrows(items, k);
    WellListedAt(items, k);
    more := kids;
    if Found(items[k], first.visit.depth, maxDepth) {
      var n: ListNode :|
        after == [before[0], n] + before[1..]
        && n.visit == Visit(Join(before[0].visit.path, items[k].name), items[k].node, before[0].visit.depth + 1);
      ListCons(n, kids, maxDepth);
      Spliced(first, n, kids, tail);
      more := [n] + kids;
    }
  }

  lemma Spliced(first: ListNode, n: ListNode, kids: seq<ListNode>, tail: seq<ListNode>)
    ensures ([first] + kids + tail)[0] == first
    ensures [first, n] + ([first] + kids + tail)[1..] == [first] + ([n] + kids) + tail
  {
  }

  method ReadDirectory(readable: bool, size: nat, maxDepth: nat, dirs: DirList, alloc: Allocator,
                       ghost rest: multiset<Block>)
    returns (ret: Ret, newSize: nat, ghost bytes: nat, ghost kids: seq<ListNode>)
    requires size < SIZE_MODULUS
    requires dirs.Valid() && dirs.list != [] && AllDirs(dirs.list)
    requires alloc.Valid() && alloc.live == rest + NodeBlocks(dirs.list)
    modifies dirs, dirs.repr, alloc
    ensures dirs.Valid() && fresh(dirs.repr - old(dirs.repr))
    ensures alloc.Valid() && alloc.live == rest + NodeBlocks(dirs.list) && alloc.calls >= old(alloc.calls)
    ensures ret == Ok || ret == Error || ret == BadAlloc
    ensures ret == Ok ==> readable
    ensures ret != Ok ==> !readable || !alloc.NoFailure(old(alloc.calls), alloc.calls)
    ensures dirs.list != []
    ensures ret == Ok ==> newSize == Wrap(size + bytes) && newSize < SIZE_MODULUS
    ensures ret == Ok ==> dirs.list == [old(dirs.list)[0]] + kids + old(dirs.list)[1..]
    ensures ret == Ok ==> Queued(kids, bytes, old(dirs.list)[0].visit, old(dirs.list)[0].visit.dir.items, maxDepth)
  {
    hide NodeBlocks, Chain, Sum, Listed, Preorder, WellListed, AllWellListed, Below, FileSize, Queued, ItemsSize, Wrap;
    newSize, bytes, kids := size, 0, [];
    ghost var sum: nat := size;
    NoWrap(size);
    ghost var tail := dirs.list[1..];
    var iter := StartIterator(readable, alloc);
    if iter.None? {
      return Error, newSize, bytes, kids;
    }
    var first := dirs.First();
    var items := first.visit.dir.items;
    HeadIsWellListed(dirs.list);
    QueuedNone(first, tail, dirs.list, maxDepth);
    var k: nat, more := 0, true;
    while more
      invariant k <= |items| && (more <==> k < |items|)
      invariant dirs.Valid() && fresh(dirs.repr - old(dirs.repr))
      invariant alloc.Valid() && alloc.live == rest + IterBlocks(iter.value) + NodeBlocks(dirs.list)
      invariant alloc.calls >= old(alloc.calls)
      invariant dirs.list == [first] + kids + tail
      invariant newSize == Wrap(sum) && newSize < SIZE_MODULUS && sum == size + bytes
      invariant Queued(kids, bytes, first.visit, items[..k], maxDepth)
      decreases |items| - k
    {
      ghost var last := newSize;
      ret, newSize := CheckAndCalculateSize(items[k], newSize, maxDepth, dirs, alloc, rest + IterBlocks(iter.value));
      if ret != Ok {
        EndIterator(iter.value, alloc, rest + NodeBlocks(dirs.list));
        return ret, newSize, bytes, kids;
      }
      kids := QueuedStep(kids, bytes, first, tail, dirs.list, items, k, maxDepth);
      AddsUp(sum, FileSize(items[k]), sum + FileSize(items[k]), last, newSize);
      sum := sum + FileSize(items[k]);
      bytes := bytes + FileSize(items[k]);
      k := k + 1;
      more := k < |items|;
    }
    AllOf(items);
    EndIterator(iter.value, alloc, rest + NodeBlocks(dirs.list));
    return Ok, newSize, bytes, kids;
  }

  lemma HeadIsWellListed(list: seq<ListNode>)
    requires list != [] && AllDirs(list)
    ensures list[0].visit.dir.Dir? && list[0].visit.dir.items != [] && AllWellListed(list[0].visit.dir.items)
  {
  }

  lemma QueuedNone(first: ListNode, tail: seq<ListNode>, list: seq<ListNode>, maxDepth: nat)
    requires first.visit.dir.Dir? && list != [] && first == list[0] && tail == list[1..]
    ensures list == [first] + [] + tail
    ensures Queued([], 0, first.visit, first.visit.dir.items[..0], maxDepth)
  {
  }

  lemma AllOf(items: seq<Item>)
    ensures items[..|items|] == items
  {
  }

  lemma NoWrap(size: nat)
    requires size < SIZE_MODULUS
    ensures Wrap(size) == size
  {
  }

  lemma AddsUp(sum: nat, more: nat, total: nat, size: nat, newSize: nat)
    requires size == Wrap(sum) && newSize == Wrap(size + more) && total == sum + more
    ensures newSize == Wrap(total)
  {
  }

  // ----- the whole calculation

  /** What has been read and what is still listed make up the whole tree. */
  ghost predicate Accounted(list: seq<ListNode>, bytes: nat, visited: seq<Visit>, root: Visit, maxDepth: nat)
    requires root.dir.Dir?
  {
    AllDirs(list)
    && bytes + ListSize(list, maxDepth) == DirSize(root.dir, root.depth, maxDepth)
    && visited + ListVisits(list, maxDepth) == Preorder(root, maxDepth)
  }

  ghost function ToVisit(list: seq<ListNode>, maxDepth: nat): nat
    requires AllDirs(list)
  {
    |ListVisits(list, maxDepth)|
  }

  lemma AccountedStep(list: seq<ListNode>, bytes: nat, visited: seq<Visit>, root: Visit, maxDepth: nat,
                      kids: seq<ListNode>, found: nat, grown: seq<ListNode>)
    requires root.dir.Dir? && list != [] && Accounted(list, bytes, visited, root, maxDepth)
    requires Queued(kids, found, list[0].visit, list[0].visit.dir.items, maxDepth)
    requires grown == [list[0]] + kids + list[1..]
    ensures Accounted(grown[1..], bytes + found, visited + [list[0].visit], root, maxDepth)
    ensures AllDirs(grown[1..]) && ToVisit(grown[1..], maxDepth) < ToVisit(list, maxDepth)
  {
    hide Below, ItemsSize;
    Tailed(list, kids);
    var tail := list[1..];
    ListConcat(kids, tail, maxDepth);
    var v := list[0].visit;
    assert ListVisits(list, maxDepth) ==
           [v] + Below(v.path, v.dir.items, v.depth, maxDepth) + ListVisits(tail, maxDepth);
    Regrouped(visited, v, ListVisits(kids, maxDepth), ListVisits(tail, maxDepth));
  }

  lemma Regrouped(visited: seq<Visit>, v: Visit, kids: seq<Visit>, tail: seq<Visit>)
    ensures visited + ([v] + kids + tail) == (visited + [v]) + (kids + tail)
  {
  }

  lemma AccountedFirst(n: ListNode, maxDepth: nat, readable: string -> bool)
    requires n.visit.dir.Dir? && WellListed(n.visit.dir)
    ensures Accounted([n], 0, [], n.visit, maxDepth) && AllReadable(readable, [])
  {
    ListCons(n, [], maxDepth);
    assert [n] + [] == [n];
  }

  /** Every visited directory could be opened. */
  ghost predicate AllReadable(readable: string -> bool, visits: seq<Visit>) {
    forall i :: 0 <= i < |visits| ==> readable(visits[i].path)
  }

  ghost predicate CanRead(readable: string -> bool, root: Visit, maxDepth: nat)
    requires root.dir.Dir?
  {
    AllReadable(readable, Preorder(root, maxDepth))
  }

  lemma ReadableToo(readable: string -> bool, visited: seq<Visit>, v: Visit)
    requires AllReadable(readable, visited) && readable(v.path)
    ensures AllReadable(readable, visited + [v])
  {
  }

  lemma FirstOfRest(readable: string -> bool, list: seq<ListNode>, bytes: nat, visited: seq<Visit>, root: Visit,
                    maxDepth: nat)
    requires root.dir.Dir? && list != [] && Accounted(list, bytes, visited, root, maxDepth)
    ensures |visited| < |Preorder(root, maxDepth)| && Preorder(root, maxDepth)[|visited|] == list[0].visit
    ensures AllDirs(list)
    ensures AllReadable(readable, Preorder(root, maxDepth)) ==> readable(list[0].visit.path)
  {
    assert ListVisits(list, maxDepth) == Preorder(list[0].visit, maxDepth) + ListVisits(list[1..], maxDepth);
  }

  lemma NoneLeft(bytes: nat, visited: seq<Visit>, root: Visit, maxDepth: nat)
    requires root.dir.Dir? && Accounted([], bytes, visited, root, maxDepth)
    ensures bytes == DirSize(root.dir, root.depth, maxDepth) && visited == Preorder(root, maxDepth)
  {
  }

  /** What holds between two rounds. */
  ghost predicate Progress(list: seq<ListNode>, bytes: nat, visited: seq<Visit>, root: Visit, maxDepth: nat, size: nat,
                           readable: string -> bool)
    requires root.dir.Dir?
  {
    Accounted(list, bytes, visited, root, maxDepth) && size == Wrap(bytes) && AllReadable(readable, visited)
  }

  ghost function Left(list: seq<ListNode>, maxDepth: nat): nat {
    if AllDirs(list) then ToVisit(list, maxDepth) else 0
  }

  lemma ProgressStep(list: seq<ListNode>, bytes: nat, visited: seq<Visit>, root: Visit, maxDepth: nat, size: nat,
                     readable: string -> bool, kids: seq<ListNode>, found: nat, grown: seq<ListNode>, newSize: nat)
    requires root.dir.Dir? && list != [] && Progress(list, bytes, visited, root, maxDepth, size, readable)
    requires Queued(kids, found, list[0].visit, list[0].visit.dir.items, maxDepth)
    requires grown == [list[0]] + kids + list[1..] && newSize == Wrap(size + found) && readable(list[0].visit.path)
    ensures Progress(grown[1..], bytes + found, visited + [list[0].visit], root, maxDepth, newSize, readable)
    ensures Left(grown[1..], maxDepth) < Left(list, maxDepth)
  {
    hide Accounted, Wrap, AllReadable, Queued, AllDirs, ToVisit;
    FirstOfRest(readable, list, bytes, visited, root, maxDepth);
    AccountedStep(list, bytes, visited, root, maxDepth, kids, found, grown);
    AddsUp(bytes, found, bytes + found, size, newSize);
    ReadableToo(readable, visited, list[0].visit);
  }

  lemma ProgressFirst(n: ListNode, maxDepth: nat, readable: string -> bool)
    requires n.visit.dir.Dir? && WellListed(n.visit.dir)
    ensures Progress([n], 0, [], n.visit, maxDepth, 0, readable)
  {
    hide Accounted, AllReadable, Wrap;
    AccountedFirst(n, maxDepth, readable);
    NoWrap(0);
  }

  lemma ProgressFacts(list: seq<ListNode>, bytes: nat, visited: seq<Visit>, root: Visit, maxDepth: nat, size: nat,
                      readable: string -> bool)
    requires root.dir.Dir? && Progress(list, bytes, visited, root, maxDepth, size, readable)
    ensures AllDirs(list) && size < SIZE_MODULUS
    ensures list != [] && CanRead(readable, root, maxDepth) ==> readable(list[0].visit.path)
    ensures list == [] ==> size == Wrap(DirSize(root.dir, root.depth, maxDepth)) && visited == Preorder(root, maxDepth)
    ensures list == [] ==> AllReadable(readable, visited)
  {
    hide AllReadable;
    if list != [] {
      FirstOfRest(readable, list, bytes, visited, root, maxDepth);
    } else {
      NoneLeft(bytes, visited, root, maxDepth);
    }
  }

  /** One round: read the directory at the head and unlink it, or give everything back. */
  method Round(readable: string -> bool, maxDepth: nat, dirs: DirList, size: nat, alloc: Allocator, ghost root: Visit,
               ghost bytes: nat, ghost visited: seq<Visit>, ghost rest: multiset<Block>)
    returns (ret: Ret, newSize: nat, ghost bytes': nat, ghost visited': seq<Visit>)
    requires dirs.Valid() && dirs.list != [] && root.dir.Dir?
    requires Progress(dirs.list, bytes, visited, root, maxDepth, size, readable)
    requires alloc.Valid() && alloc.live == rest + NodeBlocks(dirs.list)
    modifies dirs, dirs.repr, alloc
    ensures fresh(dirs.repr - old(dirs.repr)) && alloc.Valid() && alloc.calls >= old(alloc.calls)
    ensures ret == Ok || ((ret == Error || ret == BadAlloc) && alloc.live == rest)
    ensures ret != Ok ==> !CanRead(readable, root, maxDepth) || !alloc.NoFailure(old(alloc.calls), alloc.calls)
    ensures ret == Ok ==> dirs.Valid() && (dirs.head == null <==> dirs.list == [])
    ensures ret == Ok ==> alloc.live == rest + NodeBlocks(dirs.list)
    ensures ret == Ok ==> Progress(dirs.list, bytes', visited', root, maxDepth, newSize, readable)
    ensures ret == Ok ==> Left(dirs.list, maxDepth) < Left(old(dirs.list), maxDepth)
  {
    hide NodeBlocks, Chain, Sum, Preorder, WellListed, DirSize;
    hide Queued, Progress, AllDirs, Left, Wrap, CanRead, AllReadable;
    ProgressFacts(dirs.list, bytes, visited, root, maxDepth, size, readable);
    var first := dirs.First();
    ghost var list := dirs.list;
    ghost var found: nat, kids;
    ret, newSize, found, kids := ReadDirectory(readable(first.visit.path), size, maxDepth, dirs, alloc, rest);
    bytes', visited' := bytes + found, visited + [first.visit];
    if ret == Ok {
      ProgressStep(list, bytes, visited, root, maxDepth, size, readable, kids, found, dirs.list, newSize);
      dirs.RemoveFirst(alloc, rest);
    } else {
      dirs.Free(alloc, rest);
    }
  }

  /** `visited` lists the directories in the order in which they are read. */
  method CalculateDirectorySize(path: string, root: Node, readable: string -> bool, maxDepth: nat, alloc: Allocator)
    returns (ret: Ret, size: nat, ghost visited: seq<Visit>)
    requires alloc.Valid() && WellListed(root)
    modifies alloc
    ensures alloc.Valid() && alloc.live == old(alloc.live)
    ensures ret == Ok || ret == Error || ret == BadAlloc
    ensures !root.Dir? ==> ret == Error
    ensures ret == Ok ==> root.Dir? && size == DirSize(root, 1, maxDepth) % 0x1_0000_0000_0000_0000
    ensures ret == Ok ==> visited == Preorder(Visit(path, root, 1), maxDepth) && AllReadable(readable, visited)
    ensures root.Dir? && CanRead(readable, Visit(path, root, 1), maxDepth) ==>
              alloc.NoFailure(old(alloc.calls), alloc.calls) ==> ret == Ok
  {
    size, visited := 0, [];
    if !root.Dir? {
      return Error, size, visited;
    }
    ghost var v := Visit(path, root, 1);
    hide *;
    var dirs;
    ret, dirs := FirstNode(path, root, alloc);
    if ret != Ok {
      return ret, size, visited;
    }
    ghost var first, middle, rest := alloc.calls, alloc.calls, old(alloc.live);
    ProgressFirst(dirs.list[0], maxDepth, readable);
    ghost var bytes: nat := 0;
    var more := true;
    while more
      invariant fresh(dirs) && fresh(dirs.repr) && dirs.Valid() && (more <==> dirs.list != [])
      invariant alloc.Valid() && alloc.live == rest + NodeBlocks(dirs.list) && alloc.calls >= first
      invariant Progress(dirs.list, bytes, visited, v, maxDepth, size, readable)
      decreases Left(dirs.list, maxDepth)
    {
      middle := alloc.calls;
      ret, size, bytes, visited := Round(readable, maxDepth, dirs, size, alloc, v, bytes, visited, rest);
      if ret != Ok {
        FailedLater(alloc, old(alloc.calls), middle, alloc.calls);
        return ret, size, visited;
      }
      more := dirs.head != null;
    }
    ProgressFacts(dirs.list, bytes, visited, v, maxDepth, size, readable);
    WrapIs(DirSize(root, 1, maxDepth));
    NodeBlocksNone();
    return Ok, size, visited;
  }

  /** The list with the root directory alone. */
  method FirstNode(path: string, root: Node, alloc: Allocator) returns (ret: Ret, dirs: DirList?)
    requires alloc.Valid()
    modifies alloc
    ensures alloc.Valid() && alloc.calls >= old(alloc.calls)
    ensures ret == Ok || (ret == BadAlloc && alloc.live == old(alloc.live))
    ensures ret == BadAlloc <==> alloc.fails(old(alloc.calls)) || alloc.fails(old(alloc.calls) + 1)
    ensures ret != Ok ==> !alloc.NoFailure(old(alloc.calls), alloc.calls)
    ensures ret == Ok ==> dirs != null && fresh(dirs) && fresh(dirs.repr) && dirs.Valid() && |dirs.list| == 1
    ensures ret == Ok ==> dirs.list == [dirs.list[0]] && dirs.list[0].visit == Visit(path, root, 1)
    ensures ret == Ok ==> alloc.live == old(alloc.live) + NodeBlocks(dirs.list)
  {
    hide NodeBlocks, Chain, Sum, DirList.Valid, Preorder;
    var block := alloc.Allocate();
    if block.None? {
      return BadAlloc, null;
    }
    var pathBlock := alloc.Allocate();
    if pathBlock.None? {
      alloc.Deallocate(block, old(alloc.live));
      return BadAlloc, null;
    }
    var n := ListNode(Visit(path, root, 1), block.value, pathBlock.value);
    dirs := new DirList(n);
    NodeBlocksOne(n);
    return Ok, dirs;
  }

  lemma Tailed(list: seq<ListNode>, kids: seq<ListNode>)
    requires list != []
    ensures ([list[0]] + kids + list[1..])[1..] == kids + list[1..]
  {
  }

  lemma NodeBlocksOne(n: ListNode)
    ensures NodeBlocks([n]) == multiset{n.block} + multiset{n.pathBlock}
  {
    SumOne(x => OwnBlocks(x), n);
  }

  lemma NodeBlocksNone()
    ensures NodeBlocks([]) == multiset{}
  {
  }
}
