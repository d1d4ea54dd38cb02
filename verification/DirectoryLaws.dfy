/** Which directories are visited and which sizes count, without the functions that compute them. */
module DirectoryLaws {
  import opened Directories

  /** The size of a regular file; nothing else has one. */
  lemma FileSizeMeans(name: string, size: nat, items: seq<Item>)
    ensures FileSize(Entry(name, File(size))) == size && FileSize(Entry(name, Special)) == 0
    ensures FileSize(Entry(name, Dir(items))) == 0 && FileSize(Here) == 0 && FileSize(Parent) == 0
  {
  }

  /** One more item adds its size to that of the directory. */
  lemma OwnBytesMeans(items: seq<Item>, item: Item)
    ensures OwnBytes([]) == 0
    ensures OwnBytes(items + [item]) ==
            OwnBytes(items) + match item { case Entry(_, File(size)) => size case _ => 0 }
  {
    assert (items + [item])[..|items|] == items;
  }

  /** `w` is a directory listed in `v`, and the limit allows it; a limit of 0 is none. */
  ghost predicate LeadsTo(v: Visit, w: Visit, maxDepth: nat) {
    && v.dir.Dir?
    && (exists name: string :: Entry(name, w.dir) in v.dir.items && w.path == v.path + "/" + name)
    && w.dir.Dir?
    && w.depth == v.depth + 1
    && (maxDepth == 0 || v.depth + 1 <= maxDepth)
  }

  /** The root, whatever a member leads to, and nothing else. */
  ghost predicate Reached(root: Visit, all: set<Visit>, maxDepth: nat) {
    && root in all
    && (forall v, w :: v in all && LeadsTo(v, w, maxDepth) ==> w in all)
    && (forall w :: w in all ==> w == root || exists v :: v in all && LeadsTo(v, w, maxDepth))
  }

  ghost function Visits(root: Visit, maxDepth: nat): set<Visit>
    requires root.dir.Dir?
  {
    set v | v in Preorder(root, maxDepth)
  }

  /** Where the directories below come from. */
  lemma {:induction false} ComeFrom(v: Visit, w: Visit, maxDepth: nat)
    requires v.dir.Dir? && w in Preorder(v, maxDepth) && w != v
    ensures exists u :: u in Preorder(v, maxDepth) && LeadsTo(u, w, maxDepth)
    decreases v.dir, 1
  {
    BelowComesFrom(v, v.dir.items, w, maxDepth);
  }

  lemma {:induction false} BelowComesFrom(v: Visit, items: seq<Item>, w: Visit, maxDepth: nat)
    requires v.dir.Dir? && (forall item :: item in items ==> item in v.dir.items)
    requires w in Below(v.path, items, v.depth, maxDepth)
    ensures LeadsTo(v, w, maxDepth)
            || exists u :: u in Below(v.path, items, v.depth, maxDepth) && LeadsTo(u, w, maxDepth)
    decreases items, 0
  {
    hide LeadsTo;
    var rest, last := items[..|items| - 1], items[|items| - 1];
    if w in Below(v.path, rest, v.depth, maxDepth) {
      BelowComesFrom(v, rest, w, maxDepth);
    } else {
      var here := Visit(Join(v.path, last.name), last.node, v.depth + 1);
      if w == here {
        LeadsHere(v, last, maxDepth);
      } else {
        ComeFrom(here, w, maxDepth);
      }
    }
  }

  lemma LeadsHere(v: Visit, item: Item, maxDepth: nat)
    requires v.dir.Dir? && item in v.dir.items && Found(item, v.depth, maxDepth)
    ensures LeadsTo(v, Visit(Join(v.path, item.name), item.node, v.depth + 1), maxDepth)
  {
    assert Entry(item.name, item.node) == item;
  }

  /** No directory deeper than the limit is visited. */
  lemma NoneDeeper(root: Visit, v: Visit, maxDepth: nat)
    requires root.dir.Dir? && v in Visits(root, maxDepth) && (maxDepth == 0 || root.depth <= maxDepth)
    ensures v.dir.Dir? && (maxDepth == 0 || v.depth <= maxDepth)
  {
    SizeIsOfVisits(root, maxDepth);
    hide Preorder;
  }

  /** The directories visited are those reached. */
  lemma VisitsAreReached(root: Visit, maxDepth: nat)
    requires root.dir.Dir?
    ensures Reached(root, Visits(root, maxDepth), maxDepth)
  {
    VisitsAreClosed(root, maxDepth);
    forall v, w | v in Visits(root, maxDepth) && LeadsTo(v, w, maxDepth) ensures w in Visits(root, maxDepth) {
      hide Preorder, LeadsTo;
      ListedIsVisited(root, v, w, maxDepth);
    }
    forall w | w in Visits(root, maxDepth) && w != root
      ensures exists v :: v in Visits(root, maxDepth) && LeadsTo(v, w, maxDepth)
    {
      hide Preorder, LeadsTo;
      ComeFrom(root, w, maxDepth);
    }
  }

  lemma ListedIsVisited(root: Visit, v: Visit, w: Visit, maxDepth: nat)
    requires root.dir.Dir? && v in Preorder(root, maxDepth) && LeadsTo(v, w, maxDepth)
    requires Closed(Preorder(root, maxDepth), Preorder(root, maxDepth), maxDepth)
    ensures w in Preorder(root, maxDepth)
  {
    hide Preorder;
    var name :| Entry(name, w.dir) in v.dir.items && w.path == v.path + "/" + name;
    var k :| 0 <= k < |v.dir.items| && v.dir.items[k] == Entry(name, w.dir);
    assert Listing(v, v.dir.items, Preorder(root, maxDepth), maxDepth);
    assert Found(v.dir.items[k], v.depth, maxDepth);
    assert w == Visit(Join(v.path, name), w.dir, v.depth + 1);
  }

  /** There is only one such set. */
  lemma ReachedIsUnique(root: Visit, some: set<Visit>, all: set<Visit>, maxDepth: nat)
    requires Reached(root, some, maxDepth) && Reached(root, all, maxDepth)
    ensures some == all
  {
    hide LeadsTo;
    forall w | w in some ensures w in all {
      ReachedAlso(root, some, all, w, maxDepth);
    }
    forall w | w in all ensures w in some {
      ReachedAlso(root, all, some, w, maxDepth);
    }
  }

  lemma {:induction false} ReachedAlso(root: Visit, some: set<Visit>, all: set<Visit>, w: Visit, maxDepth: nat)
    requires Reached(root, some, maxDepth) && Reached(root, all, maxDepth) && w in some
    ensures w in all
    decreases w.depth
  {
    if w != root {
      var v :| v in some && LeadsTo(v, w, maxDepth);
      ReachedAlso(root, some, all, v, maxDepth);
    }
  }
}
