/**
 * The consistency of `struct hot_info`, stated on values: the item heap,
 * the inode radix tree, the range radix trees inside the inode items, and
 * the two heat maps.  Each transition the engine makes is a function or a
 * relation here, with a lemma that it keeps the invariant.
 *
 * Items live in a heap map from `ItemId` (the model's pointer) to the
 * item; freeing an item removes it.
 *
 * The invariants quantify over ids, inode numbers, range indexes and
 * buckets.  Their quantifiers are instantiated only where a proof names
 * the point of interest through one of the marker predicates below
 * (`ItemAt`, `InoAt`, `RangeAt`, `BucketAt`, `NodeAt`), which keeps the
 * proofs about the class small.
 */
module HotState {
  import opened Base
  import opened HotTypes
  import opened HotFreq
  import opened Radix

  type Items = map<ItemId, HotItem>

  function WithRefs(it: HotItem, refs: nat): HotItem
  {
    it.(comm := it.comm.(refs := refs))
  }

  function WithLink(it: HotItem, link: Option<u8>): HotItem
  {
    it.(comm := it.comm.(link := link))
  }

  /** Markers naming a point of the invariants' quantifiers. */
  ghost predicate ItemAt(items: Items, id: ItemId) { true }
  ghost predicate InoAt(tree: map<u64, ItemId>, ino: u64) { true }
  ghost predicate RangeAt(items: Items, he: ItemId, s: u32) { true }
  ghost predicate BucketAt(heat: seq<MapHead>, b: int) { true }
  ghost predicate NodeAt(heat: seq<MapHead>, b: int, id: ItemId) { true }

  // ---------------------------------------------------------------------
  // The radix trees

  /** Range `s` of inode `he` is a range item owned by `he` with index `s`. */
  ghost predicate RangeEntryOk(items: Items, he: ItemId, s: u32)
    requires he in items && items[he].InodeItem? && s in items[he].rangeTree
  {
    var hr := items[he].rangeTree[s];
    hr in items && items[hr].RangeItem? && items[hr].owner == he && items[hr].start == s
  }

  ghost predicate RangesOk(items: Items, he: ItemId)
    requires he in items && items[he].InodeItem?
  {
    forall s {:trigger RangeAt(items, he, s)} :: s in items[he].rangeTree ==> RangeEntryOk(items, he, s)
  }

  /** An item is below the next fresh id and holds a reference; an inode
   *  item sits in the inode tree under its number, with a sound range tree. */
  ghost predicate ItemOk(items: Items, tree: map<u64, ItemId>, nextId: nat, id: ItemId)
    requires id in items
  {
    && id < nextId && items[id].comm.refs >= 1
    && (items[id].InodeItem? ==>
          items[id].ino in tree && tree[items[id].ino] == id && RangesOk(items, id))
  }

  /** The inode tree maps `ino` to the inode item with that number. */
  ghost predicate InoOk(items: Items, tree: map<u64, ItemId>, ino: u64)
    requires ino in tree
  {
    tree[ino] in items && items[tree[ino]].InodeItem? && items[tree[ino]].ino == ino
  }

  ghost predicate IndexOk(items: Items, tree: map<u64, ItemId>, nextId: nat)
  {
    && (forall id {:trigger ItemAt(items, id)} :: id in items ==> ItemOk(items, tree, nextId, id))
    && (forall ino {:trigger InoAt(tree, ino)} :: ino in tree ==> InoOk(items, tree, ino))
  }

  // ---------------------------------------------------------------------
  // The heat maps

  /** Bucket `b` has temperature `b` and no node twice. */
  ghost predicate BucketOk(heat: seq<MapHead>, b: int)
    requires 0 <= b < |heat|
  {
    heat[b].temp == b && NoDup(heat[b].nodeList)
  }

  /** A linked item of the map's kind is on the list its link names. */
  ghost predicate LinkOk(items: Items, heat: seq<MapHead>, inodes: bool, id: ItemId)
    requires id in items && |heat| == HEAT_MAP_SIZE
  {
    items[id].InodeItem? == inodes && items[id].comm.link.Some? ==>
      id in heat[items[id].comm.link.value].nodeList
  }

  /**
   * One heat map (of inode items when `inodes`, else of range items)
   * agrees with the links: bucket `b` holds exactly the items of that kind
   * linked to `b`.
   */
  ghost predicate MapOk(items: Items, heat: seq<MapHead>, inodes: bool)
  {
    && |heat| == HEAT_MAP_SIZE
    && (forall b {:trigger BucketAt(heat, b)} :: 0 <= b < |heat| ==> BucketOk(heat, b))
    && (forall b, id {:trigger NodeAt(heat, b, id)} :: 0 <= b < |heat| && id in heat[b].nodeList ==>
          id in items && items[id].InodeItem? == inodes && items[id].comm.link == Some(b))
    && (forall id {:trigger ItemAt(items, id)} :: id in items ==> LinkOk(items, heat, inodes, id))
  }

  /** The whole `struct hot_info` invariant. */
  ghost predicate StateOk(items: Items, tree: map<u64, ItemId>, nextId: nat,
                          im: seq<MapHead>, rm: seq<MapHead>)
  {
    IndexOk(items, tree, nextId) && MapOk(items, im, true) && MapOk(items, rm, false)
  }

  /** Number of nodes on all lists of a heat map. */
  ghost function Entries(heat: seq<MapHead>): nat
  {
    if heat == [] then 0 else |heat[0].nodeList| + Entries(heat[1..])
  }

  /** `hot_map_nr` counts the linked items of both maps, as an unsigned int. */
  ghost predicate CountOk(nr: u32, im: seq<MapHead>, rm: seq<MapHead>)
  {
    nr == (Entries(im) + Entries(rm)) % U32
  }

  lemma {:induction false} EntriesUpdate(heat: seq<MapHead>, b: nat, h: MapHead)
    requires b < |heat|
    ensures Entries(heat[b := h]) == Entries(heat) - |heat[b].nodeList| + |h.nodeList|
    decreases |heat|
  {
    if b > 0 {
      EntriesUpdate(heat[1..], b - 1, h);
      assert heat[b := h][1..] == heat[1..][b - 1 := h];
    }
  }

  lemma {:induction false} EntriesAppend(a: seq<MapHead>, b: seq<MapHead>)
    ensures Entries(a + b) == Entries(a) + Entries(b)
    decreases |a|
  {
    if a != [] {
      EntriesAppend(a[1..], b);
      assert (a + b)[1..] == a[1..] + b;
    } else {
      assert a + b == b;
    }
  }

  /** The empty buckets `MapHead([], b)` of a freshly initialised map. */
  lemma EmptyMapOk(items: Items, heat: seq<MapHead>, inodes: bool)
    requires |heat| == HEAT_MAP_SIZE
    requires forall b :: 0 <= b < |heat| ==> heat[b] == MapHead([], b)
    requires forall id :: id in items ==> items[id].comm.link.None?
    ensures MapOk(items, heat, inodes) && Entries(heat) == 0
  {
    forall b | 0 <= b < |heat|
      ensures BucketOk(heat, b)
    {
    }
    forall id | id in items
      ensures LinkOk(items, heat, inodes, id)
    {
    }
    EntriesNone(heat);
  }

  lemma {:induction false} EntriesNone(heat: seq<MapHead>)
    requires forall b :: 0 <= b < |heat| ==> heat[b].nodeList == []
    ensures Entries(heat) == 0
    decreases |heat|
  {
    if heat != [] {
      EntriesNone(heat[1..]);
    }
  }

  // ---------------------------------------------------------------------
  // One point of the invariants

  lemma ItemFacts(items: Items, tree: map<u64, ItemId>, nextId: nat, id: ItemId)
    requires IndexOk(items, tree, nextId) && id in items
    ensures ItemOk(items, tree, nextId, id)
  {
    assert ItemAt(items, id);
  }

  lemma InoFacts(items: Items, tree: map<u64, ItemId>, nextId: nat, ino: u64)
    requires IndexOk(items, tree, nextId) && ino in tree
    ensures InoOk(items, tree, ino)
  {
    assert InoAt(tree, ino);
  }

  lemma RangeFacts(items: Items, tree: map<u64, ItemId>, nextId: nat, he: ItemId, s: u32)
    requires IndexOk(items, tree, nextId)
    requires he in items && items[he].InodeItem? && s in items[he].rangeTree
    ensures RangeEntryOk(items, he, s)
  {
    ItemFacts(items, tree, nextId, he);
    assert RangeAt(items, he, s);
  }

  lemma BucketFacts(items: Items, heat: seq<MapHead>, inodes: bool, b: int)
    requires MapOk(items, heat, inodes) && 0 <= b < |heat|
    ensures BucketOk(heat, b)
  {
    assert BucketAt(heat, b);
  }

  lemma NodeFacts(items: Items, heat: seq<MapHead>, inodes: bool, b: int, id: ItemId)
    requires MapOk(items, heat, inodes) && 0 <= b < |heat| && id in heat[b].nodeList
    ensures id in items && items[id].InodeItem? == inodes && items[id].comm.link == Some(b)
  {
    assert NodeAt(heat, b, id);
  }

  lemma LinkFacts(items: Items, heat: seq<MapHead>, inodes: bool, id: ItemId)
    requires MapOk(items, heat, inodes) && id in items
    ensures LinkOk(items, heat, inodes, id)
  {
    assert ItemAt(items, id);
  }

  /** The next id is not in use. */
  lemma FreshIsNew(items: Items, tree: map<u64, ItemId>, nextId: nat)
    requires IndexOk(items, tree, nextId)
    ensures nextId !in items
  {
    forall id | id in items
      ensures id < nextId
    {
      ItemFacts(items, tree, nextId, id);
    }
  }

  // ---------------------------------------------------------------------
  // Changing the common part of items

  /** `b` is `a` with another common part that still holds a reference. */
  predicate CommOnly(a: HotItem, b: HotItem)
  {
    b.(comm := a.comm) == a && b.comm.refs >= 1
  }

  /** Only the frequency data and reference counts of items changed. */
  ghost predicate Reweighted(items: Items, items': Items)
  {
    && items'.Keys == items.Keys
    && forall id :: id in items ==>
         CommOnly(items[id], items'[id]) && items'[id].comm.link == items[id].comm.link
  }

  lemma IndexKept(items: Items, items': Items, tree: map<u64, ItemId>, nextId: nat)
    requires IndexOk(items, tree, nextId) && items'.Keys == items.Keys
    requires forall id :: id in items ==> CommOnly(items[id], items'[id])
    ensures IndexOk(items', tree, nextId)
  {
    forall id | id in items'
      ensures ItemOk(items', tree, nextId, id)
    {
      ItemFacts(items, tree, nextId, id);
      assert CommOnly(items[id], items'[id]);
      if items'[id].InodeItem? {
        assert items'[id].rangeTree == items[id].rangeTree;
        forall s | s in items'[id].rangeTree
          ensures RangeEntryOk(items', id, s)
        {
          RangeFacts(items, tree, nextId, id, s);
          var hr := items[id].rangeTree[s];
          assert CommOnly(items[hr], items'[hr]);
        }
      }
    }
    forall ino | ino in tree
      ensures InoOk(items', tree, ino)
    {
      InoFacts(items, tree, nextId, ino);
      assert CommOnly(items[tree[ino]], items'[tree[ino]]);
    }
  }

  lemma MapKept(items: Items, items': Items, heat: seq<MapHead>, inodes: bool)
    requires MapOk(items, heat, inodes) && Reweighted(items, items')
    ensures MapOk(items', heat, inodes)
  {
    forall b | 0 <= b < |heat|
      ensures BucketOk(heat, b)
    {
      BucketFacts(items, heat, inodes, b);
    }
    forall b, id | 0 <= b < |heat| && id in heat[b].nodeList
      ensures id in items' && items'[id].InodeItem? == inodes && items'[id].comm.link == Some(b)
    {
      NodeFacts(items, heat, inodes, b, id);
      assert CommOnly(items[id], items'[id]);
    }
    forall id | id in items'
      ensures LinkOk(items', heat, inodes, id)
    {
      LinkFacts(items, heat, inodes, id);
      assert CommOnly(items[id], items'[id]);
    }
  }

  /** Changing frequency data and (non-zero) reference counts keeps the invariant. */
  lemma ReweightOk(items: Items, items': Items, tree: map<u64, ItemId>, nextId: nat,
                   im: seq<MapHead>, rm: seq<MapHead>)
    requires StateOk(items, tree, nextId, im, rm) && Reweighted(items, items')
    ensures StateOk(items', tree, nextId, im, rm)
  {
    IndexKept(items, items', tree, nextId);
    MapKept(items, items', im, true);
    MapKept(items, items', rm, false);
  }

  /** Changing one item's frequency data or (non-zero) reference count keeps the invariant. */
  lemma ReweightOneOk(items: Items, tree: map<u64, ItemId>, nextId: nat,
                      im: seq<MapHead>, rm: seq<MapHead>, id: ItemId, it: HotItem)
    requires StateOk(items, tree, nextId, im, rm)
    requires id in items && CommOnly(items[id], it) && it.comm.link == items[id].comm.link
    ensures StateOk(items[id := it], tree, nextId, im, rm)
  {
    var items' := items[id := it];
    forall x | x in items
      ensures CommOnly(items[x], items'[x]) && items'[x].comm.link == items[x].comm.link
    {
      ItemFacts(items, tree, nextId, x);
    }
    ReweightOk(items, items', tree, nextId, im, rm);
  }

  // ---------------------------------------------------------------------
  // Unlinking

  /** The heat map with `id` taken off the list `link` names. */
  function Unlinked(heat: seq<MapHead>, link: Option<u8>, id: ItemId): seq<MapHead>
  {
    if link.Some? && link.value < |heat| then
      heat[link.value := heat[link.value].(nodeList := Remove(heat[link.value].nodeList, id))]
    else heat
  }

  /** `hot_map_nr--` when the item was linked; an unsigned int wraps. */
  function DropCount(nr: u32, link: Option<u8>): u32
  {
    if link.Some? then (nr - 1) % U32 else nr
  }

  lemma ModSub(a: int, n: int, m: int)
    requires m > 0
    ensures ((a % m) - n) % m == (a - n) % m
  {
    var q := a / m;
    var t := (a % m) - n;
    assert a - n == t + q * m;
    DivModUnique(a - n, m, t / m + q, t % m);
  }

  /** Unlinking keeps the item's own heat map consistent and one node shorter. */
  lemma UnlinkKeepsMap(items: Items, heat: seq<MapHead>, inodes: bool, id: ItemId)
    requires MapOk(items, heat, inodes) && id in items && items[id].InodeItem? == inodes
    ensures MapOk(items[id := WithLink(items[id], None)], Unlinked(heat, items[id].comm.link, id), inodes)
    ensures items[id].comm.link.Some? ==>
      Entries(Unlinked(heat, items[id].comm.link, id)) == Entries(heat) - 1
  {
    var link := items[id].comm.link;
    var items' := items[id := WithLink(items[id], None)];
    var heat' := Unlinked(heat, link, id);
    if link.Some? {
      var b := link.value;
      var list := heat[b].nodeList;
      LinkFacts(items, heat, inodes, id);
      BucketFacts(items, heat, inodes, b);
      assert id in list && NoDup(list);
      assert heat' == heat[b := heat[b].(nodeList := Remove(list, id))];
      EntriesUpdate(heat, b, heat'[b]);
    }
    forall c | 0 <= c < |heat'|
      ensures BucketOk(heat', c)
    {
      BucketFacts(items, heat, inodes, c);
    }
    forall c, x | 0 <= c < |heat'| && x in heat'[c].nodeList
      ensures x in items' && items'[x].InodeItem? == inodes && items'[x].comm.link == Some(c)
    {
      assert x in heat[c].nodeList;
      NodeFacts(items, heat, inodes, c, x);
    }
    forall x | x in items'
      ensures LinkOk(items', heat', inodes, x)
    {
      LinkFacts(items, heat, inodes, x);
    }
  }

  /** Unlinking an item of the other kind leaves a heat map consistent. */
  lemma UnlinkKeepsOtherMap(items: Items, heat: seq<MapHead>, inodes: bool, id: ItemId)
    requires MapOk(items, heat, inodes) && id in items && items[id].InodeItem? != inodes
    ensures MapOk(items[id := WithLink(items[id], None)], heat, inodes)
  {
    var items' := items[id := WithLink(items[id], None)];
    forall c | 0 <= c < |heat|
      ensures BucketOk(heat, c)
    {
      BucketFacts(items, heat, inodes, c);
    }
    forall c, x | 0 <= c < |heat| && x in heat[c].nodeList
      ensures x in items' && items'[x].InodeItem? == inodes && items'[x].comm.link == Some(c)
    {
      NodeFacts(items, heat, inodes, c, x);
    }
    forall x | x in items'
      ensures LinkOk(items', heat, inodes, x)
    {
      LinkFacts(items, heat, inodes, x);
    }
  }

  /** Unlinking an item keeps the invariant and drops one node when it was linked. */
  lemma UnlinkOk(items: Items, tree: map<u64, ItemId>, nextId: nat,
                 im: seq<MapHead>, rm: seq<MapHead>, id: ItemId)
    requires StateOk(items, tree, nextId, im, rm) && id in items
    ensures var link := items[id].comm.link;
      var im' := if items[id].InodeItem? then Unlinked(im, link, id) else im;
      var rm' := if items[id].RangeItem? then Unlinked(rm, link, id) else rm;
      && StateOk(items[id := WithLink(items[id], None)], tree, nextId, im', rm')
      && Entries(im') + Entries(rm') == Entries(im) + Entries(rm) - (if link.Some? then 1 else 0)
  {
    var items' := items[id := WithLink(items[id], None)];
    forall x | x in items
      ensures CommOnly(items[x], items'[x])
    {
      ItemFacts(items, tree, nextId, x);
    }
    IndexKept(items, items', tree, nextId);
    if items[id].InodeItem? {
      UnlinkKeepsMap(items, im, true, id);
      UnlinkKeepsOtherMap(items, rm, false, id);
    } else {
      UnlinkKeepsMap(items, rm, false, id);
      UnlinkKeepsOtherMap(items, im, true, id);
    }
  }

  /** The head of a bucket is linked to it, and unlinking it leaves the tail. */
  lemma HeadIsLinked(items: Items, heat: seq<MapHead>, inodes: bool, b: nat)
    requires MapOk(items, heat, inodes) && b < |heat| && |heat[b].nodeList| > 0
    ensures var id := heat[b].nodeList[0];
      && id in items && items[id].InodeItem? == inodes && items[id].comm.link == Some(b)
      && Unlinked(heat, Some(b), id) == heat[b := heat[b].(nodeList := heat[b].nodeList[1..])]
  {
    var id := heat[b].nodeList[0];
    NodeFacts(items, heat, inodes, b, id);
    BucketFacts(items, heat, inodes, b);
    RemoveHead(heat[b].nodeList);
  }

  // ---------------------------------------------------------------------
  // Allocation

  /** The outcome of creating an item: the zeroing allocator's and
   *  `radix_tree_preload`'s results. */
  datatype Alloc = Alloc(zallocOk: bool, preload: int)

  /** The outcome of creating range `s` of an access; an index the map
   *  does not name is created without error. */
  function AllocAt(ra: map<u32, Alloc>, s: u32): Alloc
  {
    if s in ra then ra[s] else Alloc(true, 0)
  }

  predicate Succeeds(a: Alloc)
  {
    a.zallocOk && a.preload == 0
  }

  /** `-ENOMEM` when the allocator failed, else the preload's error. */
  function FailCode(a: Alloc): (e: int)
    requires !Succeeds(a)
    ensures e != 0
    ensures !a.zallocOk ==> e == -ENOMEM
    ensures a.zallocOk ==> e == a.preload
  {
    if !a.zallocOk then -ENOMEM else a.preload
  }

  /** A zeroed frequency record as `hot_*_item_init` leaves it. */
  function InitFreq(flag: u32): (f: FreqData)
    ensures f.avgDeltaReads == U64 - 1 && f.avgDeltaWrites == U64 - 1 && f.flags == flag
    ensures f.nrReads == 0 && f.nrWrites == 0 && f.lastReadTime == 0 && f.lastWriteTime == 0
    ensures f.lastTemp == 0
  {
    ZeroFreq.(avgDeltaReads := U64 - 1, avgDeltaWrites := U64 - 1, flags := flag)
  }

  /** A new inode item after `hot_inode_item_find`: `kref_init` plus the
   *  caller's `kref_get`, not linked, no ranges. */
  function NewInode(ino: u64, t: Tunables): HotItem
  {
    InodeItem(CommItem(InitFreq(t.inodeFlag), 2, None), map[], ino)
  }

  /** A new range item after `hot_range_item_find`, `RANGE_SIZE` bytes long. */
  function NewRange(he: ItemId, s: u32, t: Tunables): HotItem
    requires ValidTunables(t)
  {
    RangeItem(CommItem(InitFreq(t.rangeFlag), 2, None), he, s, RangeSize(t))
  }

  /** An unlinked new item leaves a heat map consistent. */
  lemma NewItemMaps(items: Items, id: ItemId, it: HotItem, heat: seq<MapHead>, inodes: bool)
    requires MapOk(items, heat, inodes) && id !in items && it.comm.link.None?
    ensures MapOk(items[id := it], heat, inodes)
  {
    var items' := items[id := it];
    forall c | 0 <= c < |heat|
      ensures BucketOk(heat, c)
    {
      BucketFacts(items, heat, inodes, c);
    }
    forall c, x | 0 <= c < |heat| && x in heat[c].nodeList
      ensures x in items' && items'[x].InodeItem? == inodes && items'[x].comm.link == Some(c)
    {
      NodeFacts(items, heat, inodes, c, x);
    }
    forall x | x in items'
      ensures LinkOk(items', heat, inodes, x)
    {
      if x != id {
        LinkFacts(items, heat, inodes, x);
      }
    }
  }

  /** Inserting a new inode item under a free inode number keeps the invariant. */
  lemma NewInodeOk(items: Items, tree: map<u64, ItemId>, nextId: nat,
                   im: seq<MapHead>, rm: seq<MapHead>, ino: u64, t: Tunables)
    requires StateOk(items, tree, nextId, im, rm) && ino !in tree
    ensures StateOk(items[nextId := NewInode(ino, t)], tree[ino := nextId], nextId + 1, im, rm)
  {
    FreshIsNew(items, tree, nextId);
    var items' := items[nextId := NewInode(ino, t)];
    var tree' := tree[ino := nextId];
    forall id | id in items'
      ensures ItemOk(items', tree', nextId + 1, id)
    {
      if id != nextId {
        ItemFacts(items, tree, nextId, id);
        if items[id].InodeItem? {
          forall s | s in items'[id].rangeTree
            ensures RangeEntryOk(items', id, s)
          {
            RangeFacts(items, tree, nextId, id, s);
          }
        }
      } else {
        assert RangesOk(items', id);
      }
    }
    forall ino' | ino' in tree'
      ensures InoOk(items', tree', ino')
    {
      if ino' != ino {
        InoFacts(items, tree, nextId, ino');
      }
    }
    NewItemMaps(items, nextId, NewInode(ino, t), im, true);
    NewItemMaps(items, nextId, NewInode(ino, t), rm, false);
  }

  /** The items after a new range `s` is inserted into inode `he`'s tree. */
  function AddRange(items: Items, nextId: nat, he: ItemId, s: u32, t: Tunables): Items
    requires ValidTunables(t) && he in items && items[he].InodeItem?
  {
    items[nextId := NewRange(he, s, t)][he := items[he].(rangeTree := items[he].rangeTree[s := nextId])]
  }

  /** Replacing an inode's range tree leaves a heat map consistent. */
  lemma RangeTreeMaps(items: Items, he: ItemId, it: HotItem, heat: seq<MapHead>, inodes: bool)
    requires MapOk(items, heat, inodes) && he in items && items[he].InodeItem?
    requires it.InodeItem? && it.comm == items[he].comm
    ensures MapOk(items[he := it], heat, inodes)
  {
    var items' := items[he := it];
    forall c | 0 <= c < |heat|
      ensures BucketOk(heat, c)
    {
      BucketFacts(items, heat, inodes, c);
    }
    forall c, x | 0 <= c < |heat| && x in heat[c].nodeList
      ensures x in items' && items'[x].InodeItem? == inodes && items'[x].comm.link == Some(c)
    {
      NodeFacts(items, heat, inodes, c, x);
    }
    forall x | x in items'
      ensures LinkOk(items', heat, inodes, x)
    {
      LinkFacts(items, heat, inodes, x);
    }
  }

  /** Inserting a new range item under a free range index keeps the invariant. */
  lemma NewRangeOk(items: Items, tree: map<u64, ItemId>, nextId: nat,
                   im: seq<MapHead>, rm: seq<MapHead>, he: ItemId, s: u32, t: Tunables)
    requires StateOk(items, tree, nextId, im, rm) && ValidTunables(t)
    requires he in items && items[he].InodeItem? && s !in items[he].rangeTree
    ensures StateOk(AddRange(items, nextId, he, s, t), tree, nextId + 1, im, rm)
  {
    FreshIsNew(items, tree, nextId);
    var items1 := items[nextId := NewRange(he, s, t)];
    var items' := AddRange(items, nextId, he, s, t);
    ItemFacts(items, tree, nextId, he);
    forall id | id in items'
      ensures ItemOk(items', tree, nextId + 1, id)
    {
      if id != nextId {
        ItemFacts(items, tree, nextId, id);
        if items'[id].InodeItem? {
          forall s' | s' in items'[id].rangeTree
            ensures RangeEntryOk(items', id, s')
          {
            if id != he || s' != s {
              RangeFacts(items, tree, nextId, id, s');
            }
          }
        }
      }
    }
    forall ino | ino in tree
      ensures InoOk(items', tree, ino)
    {
      InoFacts(items, tree, nextId, ino);
    }
    NewItemMaps(items, nextId, NewRange(he, s, t), im, true);
    NewItemMaps(items, nextId, NewRange(he, s, t), rm, false);
    RangeTreeMaps(items1, he, items'[he], im, true);
    RangeTreeMaps(items1, he, items'[he], rm, false);
  }

  // ---------------------------------------------------------------------
  // Freeing

  /**
   * The items after `hot_range_item_put` on range `s` of inode `he`: one
   * reference less, or, for the last one, the range item gone from the
   * heap and from its inode's range tree.
   */
  ghost function PutRangeItems(items: Items, he: ItemId, s: u32): Items
    requires he in items && items[he].InodeItem? && s in items[he].rangeTree
    requires items[he].rangeTree[s] in items
  {
    var hr := items[he].rangeTree[s];
    var it := items[hr];
    if it.comm.refs > 1 then items[hr := WithRefs(it, it.comm.refs - 1)]
    else (items - {hr})[he := items[he].(rangeTree := items[he].rangeTree - {s})]
  }

  /** Deleting an unlinked item and replacing an inode's range tree leave a heat map consistent. */
  lemma DeleteMaps(items: Items, hr: ItemId, he: ItemId, it: HotItem, heat: seq<MapHead>, inodes: bool)
    requires MapOk(items, heat, inodes) && hr in items && items[hr].comm.link.None?
    requires he in items && he != hr && items[he].InodeItem? && it.InodeItem? && it.comm == items[he].comm
    ensures MapOk((items - {hr})[he := it], heat, inodes)
  {
    var items' := (items - {hr})[he := it];
    forall c | 0 <= c < |heat|
      ensures BucketOk(heat, c)
    {
      BucketFacts(items, heat, inodes, c);
    }
    forall c, x | 0 <= c < |heat| && x in heat[c].nodeList
      ensures x in items' && items'[x].InodeItem? == inodes && items'[x].comm.link == Some(c)
    {
      NodeFacts(items, heat, inodes, c, x);
    }
    forall x | x in items'
      ensures LinkOk(items', heat, inodes, x)
    {
      LinkFacts(items, heat, inodes, x);
    }
  }

  /** Freeing an unlinked range item with its last reference keeps the invariant. */
  lemma DeleteRangeOk(items: Items, tree: map<u64, ItemId>, nextId: nat,
                      im: seq<MapHead>, rm: seq<MapHead>, he: ItemId, s: u32)
    requires StateOk(items, tree, nextId, im, rm)
    requires he in items && items[he].InodeItem? && s in items[he].rangeTree
    requires items[he].rangeTree[s] in items
    requires items[items[he].rangeTree[s]].comm.link.None?
    requires items[items[he].rangeTree[s]].comm.refs == 1
    ensures StateOk(PutRangeItems(items, he, s), tree, nextId, im, rm)
  {
    var hr := items[he].rangeTree[s];
    var items' := PutRangeItems(items, he, s);
    RangeFacts(items, tree, nextId, he, s);
    forall id | id in items'
      ensures ItemOk(items', tree, nextId, id)
    {
      ItemFacts(items, tree, nextId, id);
      if items'[id].InodeItem? {
        forall s' | s' in items'[id].rangeTree
          ensures RangeEntryOk(items', id, s')
        {
          RangeFacts(items, tree, nextId, id, s');
        }
      }
    }
    forall ino | ino in tree
      ensures InoOk(items', tree, ino)
    {
      InoFacts(items, tree, nextId, ino);
    }
    DeleteMaps(items, hr, he, items'[he], im, true);
    DeleteMaps(items, hr, he, items'[he], rm, false);
  }

  lemma DeleteOneMap(items: Items, id: ItemId, heat: seq<MapHead>, inodes: bool)
    requires MapOk(items, heat, inodes) && id in items && items[id].comm.link.None?
    ensures MapOk(items - {id}, heat, inodes)
  {
    var items' := items - {id};
    forall c | 0 <= c < |heat|
      ensures BucketOk(heat, c)
    {
      BucketFacts(items, heat, inodes, c);
    }
    forall c, x | 0 <= c < |heat| && x in heat[c].nodeList
      ensures x in items' && items'[x].InodeItem? == inodes && items'[x].comm.link == Some(c)
    {
      NodeFacts(items, heat, inodes, c, x);
    }
    forall x | x in items'
      ensures LinkOk(items', heat, inodes, x)
    {
      LinkFacts(items, heat, inodes, x);
    }
  }

  /** Freeing an unlinked inode item deletes it and its inode number. */
  lemma DeleteInodeOk(items: Items, tree: map<u64, ItemId>, nextId: nat,
                      im: seq<MapHead>, rm: seq<MapHead>, he: ItemId)
    requires StateOk(items, tree, nextId, im, rm)
    requires he in items && items[he].InodeItem? && items[he].comm.link.None?
    ensures StateOk(items - {he}, tree - {items[he].ino}, nextId, im, rm)
  {
    var ino := items[he].ino;
    var items' := items - {he};
    var tree' := tree - {ino};
    ItemFacts(items, tree, nextId, he);
    forall id | id in items'
      ensures ItemOk(items', tree', nextId, id)
    {
      ItemFacts(items, tree, nextId, id);
      if items'[id].InodeItem? {
        forall s' | s' in items'[id].rangeTree
          ensures RangeEntryOk(items', id, s')
        {
          RangeFacts(items, tree, nextId, id, s');
        }
      }
    }
    forall ino' | ino' in tree'
      ensures InoOk(items', tree', ino')
    {
      InoFacts(items, tree, nextId, ino');
    }
    DeleteOneMap(items, he, im, true);
    DeleteOneMap(items, he, rm, false);
  }

  // ---------------------------------------------------------------------
  // Reference counts as termination measures

  /** The reference counts of inode `he`'s range items, by range index. */
  ghost function RangeRefs(items: Items, he: ItemId): map<u32, nat>
    requires he in items && items[he].InodeItem?
  {
    map s | s in items[he].rangeTree && items[he].rangeTree[s] in items ::
      items[items[he].rangeTree[s]].comm.refs
  }

  /** The reference counts of the inode items, by inode number. */
  ghost function InodeRefs(items: Items, tree: map<u64, ItemId>): map<u64, nat>
  {
    map ino | ino in tree && tree[ino] in items :: items[tree[ino]].comm.refs
  }

  /** The effect of a range put on the counts of the inode's ranges. */
  lemma PutRangeRefs(items: Items, tree: map<u64, ItemId>, nextId: nat, he: ItemId, s: u32)
    requires IndexOk(items, tree, nextId)
    requires he in items && items[he].InodeItem? && s in items[he].rangeTree
    ensures items[he].rangeTree[s] in items
    ensures var items' := PutRangeItems(items, he, s);
      var refs := items[items[he].rangeTree[s]].comm.refs;
      && he in items' && items'[he].InodeItem?
      && RangeRefs(items', he) == if refs > 1 then RangeRefs(items, he)[s := refs - 1]
                                  else RangeRefs(items, he) - {s}
  {
    var hr := items[he].rangeTree[s];
    RangeFacts(items, tree, nextId, he, s);
    var items' := PutRangeItems(items, he, s);
    var refs := items[hr].comm.refs;
    forall s' | s' in items[he].rangeTree && s' != s
      ensures items[he].rangeTree[s'] != hr
    {
      RangeFacts(items, tree, nextId, he, s');
    }
    var want := if refs > 1 then RangeRefs(items, he)[s := refs - 1] else RangeRefs(items, he) - {s};
    assert RangeRefs(items', he) == want;
  }

  /**
   * The bookkeeping of a batch loop after `i` puts: no count rose, the
   * counts of the keys put so far fell, the keys still to come are
   * present, and the total fell by at least `i`.
   */
  ghost predicate BatchProgress<K>(rrB: map<K, nat>, rr: map<K, nat>, batch: seq<K>, i: nat)
  {
    && i <= |batch|
    && rr.Keys <= rrB.Keys
    && (forall k :: k in rr ==> rr[k] <= rrB[k])
    && (forall j :: 0 <= j < i && batch[j] in rr ==> rr[batch[j]] < rrB[batch[j]])
    && (forall j :: i <= j < |batch| ==> batch[j] in rr)
    && Total(rr) + i <= Total(rrB)
  }

  /** Before the first put nothing has changed. */
  lemma BatchStart<K>(rr: map<K, nat>, batch: seq<K>)
    requires forall j :: 0 <= j < |batch| ==> batch[j] in rr
    ensures BatchProgress(rr, rr, batch, 0)
  {
  }

  /** One put of a batch keeps the bookkeeping of a batch loop. */
  lemma BatchStep<K>(rr: map<K, nat>, rr': map<K, nat>, rrB: map<K, nat>, batch: seq<K>, i: nat)
    requires BatchProgress(rrB, rr, batch, i) && i < |batch|
    requires rr[batch[i]] >= 1
    requires forall a, b :: 0 <= a < b < |batch| ==> batch[a] != batch[b]
    requires rr' == if rr[batch[i]] > 1 then rr[batch[i] := rr[batch[i]] - 1] else rr - {batch[i]}
    ensures BatchProgress(rrB, rr', batch, i + 1)
  {
    var s := batch[i];
    if rr[s] > 1 {
      TotalDecrement(rr, s);
    } else {
      TotalRemove(rr, s);
    }
    forall j | 0 <= j < i + 1 && batch[j] in rr'
      ensures rr'[batch[j]] < rrB[batch[j]]
    {
      if j < i {
        assert batch[j] != s;
      }
    }
    forall j | i + 1 <= j < |batch|
      ensures batch[j] in rr'
    {
      assert batch[j] != s;
    }
  }

  // ---------------------------------------------------------------------
  // What a sequence of puts may change

  predicate OwnedBy(it: HotItem, he: ItemId)
  {
    it.RangeItem? && it.owner == he
  }

  /** Only the range items of `he` changed, by losing references or being freed. */
  ghost predicate RangesDecayed(items0: Items, items: Items, he: ItemId)
  {
    && items.Keys <= items0.Keys
    && (forall id {:trigger ItemAt(items0, id)} :: id in items0 && id != he && !OwnedBy(items0[id], he) ==>
          id in items && items[id] == items0[id])
    && (forall id {:trigger ItemAt(items, id)} :: id in items && OwnedBy(items0[id], he) ==>
          items[id] == WithRefs(items0[id], items[id].comm.refs)
          && items[id].comm.refs <= items0[id].comm.refs)
  }

  /**
   * `items` arose from `items0` by range puts on inode `he`: its range
   * tree lost keys and nothing else, a key leaves only when its item is
   * freed, and only its range items changed, by losing references.
   */
  ghost predicate RangesPut(items0: Items, items: Items, he: ItemId)
    requires he in items0 && items0[he].InodeItem?
  {
    && RangesDecayed(items0, items, he)
    && he in items && items[he].InodeItem?
    && items[he] == items0[he].(rangeTree := items[he].rangeTree)
    && (forall s {:trigger RangeAt(items, he, s)} :: s in items[he].rangeTree ==>
          s in items0[he].rangeTree && items[he].rangeTree[s] == items0[he].rangeTree[s])
    && (forall s {:trigger RangeAt(items0, he, s)} :: s in items0[he].rangeTree && s !in items[he].rangeTree ==>
          items0[he].rangeTree[s] !in items)
  }

  lemma RangesPutRefl(items: Items, he: ItemId)
    requires he in items && items[he].InodeItem?
    ensures RangesPut(items, items, he)
  {
    forall id | id in items && id != he && !OwnedBy(items[id], he)
      ensures id in items && items[id] == items[id]
    {
    }
    forall id | id in items && OwnedBy(items[id], he)
      ensures items[id] == WithRefs(items[id], items[id].comm.refs)
      ensures items[id].comm.refs <= items[id].comm.refs
    {
    }
    forall s | s in items[he].rangeTree
      ensures s in items[he].rangeTree && items[he].rangeTree[s] == items[he].rangeTree[s]
    {
    }
  }

  lemma RangesPutStep(items0: Items, items: Items, tree: map<u64, ItemId>, nextId: nat,
                      he: ItemId, s: u32)
    requires IndexOk(items, tree, nextId)
    requires he in items0 && items0[he].InodeItem? && RangesPut(items0, items, he)
    requires s in items[he].rangeTree
    ensures items[he].rangeTree[s] in items
    ensures RangesPut(items0, PutRangeItems(items, he, s), he)
  {
    var hr := items[he].rangeTree[s];
    RangeFacts(items, tree, nextId, he, s);
    PutDecays(items0, items, he, hr);
    assert OwnedBy(items0[hr], he);
    var items' := PutRangeItems(items, he, s);
    forall id | id in items0 && id != he && !OwnedBy(items0[id], he)
      ensures id in items' && items'[id] == items0[id]
    {
      PutKeeps(items0, items, he, id);
    }
    forall id | id in items' && OwnedBy(items0[id], he)
      ensures items'[id] == WithRefs(items0[id], items'[id].comm.refs)
      ensures items'[id].comm.refs <= items0[id].comm.refs
    {
      assert id != he;
      PutDecays(items0, items, he, id);
    }
    forall s' | s' in items'[he].rangeTree
      ensures s' in items0[he].rangeTree && items'[he].rangeTree[s'] == items0[he].rangeTree[s']
    {
      assert RangeAt(items, he, s');
    }
    forall s' | s' in items0[he].rangeTree && s' !in items'[he].rangeTree
      ensures items0[he].rangeTree[s'] !in items'
    {
      assert RangeAt(items0, he, s') && RangeAt(items, he, s);
    }
  }

  lemma PutKeeps(items0: Items, items: Items, he: ItemId, id: ItemId)
    requires RangesDecayed(items0, items, he)
    requires id in items0 && id != he && !OwnedBy(items0[id], he)
    ensures id in items && items[id] == items0[id]
  {
    assert ItemAt(items0, id);
  }

  lemma PutDecays(items0: Items, items: Items, he: ItemId, id: ItemId)
    requires RangesDecayed(items0, items, he)
    requires id in items && id != he && (OwnedBy(items0[id], he) || OwnedBy(items[id], he))
    ensures OwnedBy(items0[id], he)
    ensures items[id] == WithRefs(items0[id], items[id].comm.refs)
    ensures items[id].comm.refs <= items0[id].comm.refs
  {
    assert ItemAt(items, id) && ItemAt(items0, id);
  }

  /** Every surviving item lost references and nothing else. */
  ghost predicate Decayed(items0: Items, items: Items)
  {
    && items.Keys <= items0.Keys
    && forall id {:trigger ItemAt(items, id)} :: id in items ==>
         items[id] == WithRefs(items0[id], items[id].comm.refs)
         && items[id].comm.refs <= items0[id].comm.refs
  }

  lemma DecayedAt(items0: Items, items: Items, id: ItemId)
    requires Decayed(items0, items) && id in items
    ensures items[id] == WithRefs(items0[id], items[id].comm.refs)
    ensures items[id].comm.refs <= items0[id].comm.refs
  {
    assert ItemAt(items, id);
  }

  lemma DecayedTrans(a: Items, b: Items, c: Items)
    requires Decayed(a, b) && Decayed(b, c)
    ensures Decayed(a, c)
  {
    forall id | id in c
      ensures c[id] == WithRefs(a[id], c[id].comm.refs) && c[id].comm.refs <= a[id].comm.refs
    {
      DecayedAt(b, c, id);
      DecayedAt(a, b, id);
    }
  }

  lemma DecayedOne(items: Items, id: ItemId, r: nat)
    requires id in items && r <= items[id].comm.refs
    ensures Decayed(items, items[id := WithRefs(items[id], r)])
  {
    var items' := items[id := WithRefs(items[id], r)];
    forall x | x in items'
      ensures items'[x] == WithRefs(items[x], items'[x].comm.refs) && items'[x].comm.refs <= items[x].comm.refs
    {
    }
  }

  /** Freeing inode `he` (unlinked to `items1`, its ranges put to
   *  `items2`, then deleted) only decays the other items. */
  lemma InodeFreeDecayed(items0: Items, items1: Items, items2: Items, he: ItemId)
    requires he in items0 && items0[he].InodeItem?
    requires items1 == items0[he := WithLink(items0[he], None)]
    requires RangesPut(items1, items2, he)
    ensures RangesDecayed(items0, items2 - {he}, he) && Decayed(items0, items2 - {he})
  {
    var items' := items2 - {he};
    forall id | id in items0 && id != he && !OwnedBy(items0[id], he)
      ensures id in items' && items'[id] == items0[id]
    {
      PutKeeps(items1, items2, he, id);
    }
    forall id | id in items' && OwnedBy(items0[id], he)
      ensures items'[id] == WithRefs(items0[id], items'[id].comm.refs)
      ensures items'[id].comm.refs <= items0[id].comm.refs
    {
      PutDecays(items1, items2, he, id);
    }
    forall id | id in items'
      ensures items'[id] == WithRefs(items0[id], items'[id].comm.refs)
      ensures items'[id].comm.refs <= items0[id].comm.refs
    {
      if OwnedBy(items0[id], he) {
        PutDecays(items1, items2, he, id);
      } else {
        PutKeeps(items1, items2, he, id);
      }
    }
  }

  lemma RangeRefsKeys(items: Items, tree: map<u64, ItemId>, nextId: nat, he: ItemId)
    requires IndexOk(items, tree, nextId) && he in items && items[he].InodeItem?
    ensures RangeRefs(items, he).Keys == items[he].rangeTree.Keys
  {
    forall s | s in items[he].rangeTree
      ensures s in RangeRefs(items, he)
    {
      RangeFacts(items, tree, nextId, he, s);
    }
  }

  lemma InodeRefsKeys(items: Items, tree: map<u64, ItemId>, nextId: nat)
    requires IndexOk(items, tree, nextId)
    ensures InodeRefs(items, tree).Keys == tree.Keys
    ensures forall ino :: ino in tree ==> InodeRefs(items, tree)[ino] >= 1
  {
    forall ino | ino in tree
      ensures ino in InodeRefs(items, tree) && InodeRefs(items, tree)[ino] >= 1
    {
      InoFacts(items, tree, nextId, ino);
      ItemFacts(items, tree, nextId, tree[ino]);
    }
  }

  /** Changing an inode's count changes its entry only. */
  lemma InodeRefsDec(items: Items, tree: map<u64, ItemId>, nextId: nat, he: ItemId, r: nat)
    requires IndexOk(items, tree, nextId) && he in items && items[he].InodeItem?
    ensures InodeRefs(items[he := WithRefs(items[he], r)], tree) ==
            InodeRefs(items, tree)[items[he].ino := r]
  {
    var ino := items[he].ino;
    ItemFacts(items, tree, nextId, he);
    forall ino' | ino' in tree && ino' != ino
      ensures tree[ino'] != he
    {
      InoFacts(items, tree, nextId, ino');
    }
    var items' := items[he := WithRefs(items[he], r)];
    assert InodeRefs(items', tree) == InodeRefs(items, tree)[ino := r];
  }

  /** Freeing inode `he` removes its entry and keeps the others. */
  lemma InodeRefsAfterFree(items: Items, items': Items, tree: map<u64, ItemId>, nextId: nat, he: ItemId)
    requires IndexOk(items, tree, nextId) && he in items && items[he].InodeItem?
    requires RangesDecayed(items, items', he) && he !in items'
    ensures InodeRefs(items', tree - {items[he].ino}) == InodeRefs(items, tree) - {items[he].ino}
  {
    var ino := items[he].ino;
    ItemFacts(items, tree, nextId, he);
    forall ino' | ino' in tree && ino' != ino
      ensures tree[ino'] in items' && items'[tree[ino']] == items[tree[ino']]
    {
      InoFacts(items, tree, nextId, ino');
      PutKeeps(items, items', he, tree[ino']);
    }
    assert InodeRefs(items', tree - {ino}) == InodeRefs(items, tree) - {ino};
  }

  // ---------------------------------------------------------------------
  // The range loop of `hot_update_freqs`

  /** `start >> RANGE_BITS`, stored into a u32 cursor. */
  function FirstRange(start: u64, t: Tunables): u32
  {
    Shr(start, t.rangeBits) % U32
  }

  /** `(start + len + RANGE_SIZE - 1) >> RANGE_BITS`: the sum wraps in u64,
   *  the result is stored into a u32. */
  function EndRange(start: u64, len: u64, t: Tunables): u32
    requires ValidTunables(t)
  {
    Shr((start + len + RangeSize(t) - 1) % U64, t.rangeBits) % U32
  }

  /** `hot_freq_data_update` applied to an item's frequency data. */
  function Touched(it: HotItem, write: bool, now: u64, t: Tunables): (r: HotItem)
    requires ValidTunables(t)
    ensures r.comm.freq == FreqDataUpdate(it.comm.freq, write, now, t.freqPower)
    ensures r.(comm := it.comm) == it
    ensures r.comm.refs == it.comm.refs && r.comm.link == it.comm.link
  {
    it.(comm := it.comm.(freq := FreqDataUpdate(it.comm.freq, write, now, t.freqPower)))
  }

  /** The range items of inode `he`, by range index. */
  ghost function RangeView(items: Items, he: ItemId): map<u32, HotItem>
    requires he in items && items[he].InodeItem?
  {
    map s | s in items[he].rangeTree && items[he].rangeTree[s] in items :: items[items[he].rangeTree[s]]
  }

  /** Range `s` after one access: an existing range is touched; a missing
   *  one is created and touched, keeping the tree's reference only. */
  function RangeAfter(v: map<u32, HotItem>, he: ItemId, s: u32, write: bool, now: u64, t: Tunables): HotItem
    requires ValidTunables(t)
  {
    if s in v then Touched(v[s], write, now, t)
    else WithRefs(Touched(NewRange(he, s, t), write, now, t), 1)
  }

  /** The ranges after every index in `[lo, hi)` was accessed once. */
  function TouchSpan(v: map<u32, HotItem>, he: ItemId, lo: u32, hi: u32,
                     write: bool, now: u64, t: Tunables): map<u32, HotItem>
    requires ValidTunables(t)
    decreases hi - lo
  {
    if hi <= lo then v
    else TouchSpan(v, he, lo, hi - 1, write, now, t)[hi - 1 := RangeAfter(v, he, hi - 1, write, now, t)]
  }

  /** Exactly the indexes of `[lo, hi)` were accessed, each once against
   *  its state before the loop; the other ranges are as they were. */
  lemma {:induction false} TouchSpanSpec(v: map<u32, HotItem>, he: ItemId, lo: u32, hi: u32,
                                         write: bool, now: u64, t: Tunables)
    requires ValidTunables(t)
    ensures var w := TouchSpan(v, he, lo, hi, write, now, t);
      && (forall k :: k in w <==> k in v || lo <= k < hi)
      && (forall k :: k in w ==>
            w[k] == if lo <= k < hi then RangeAfter(v, he, k, write, now, t) else v[k])
    decreases hi - lo
  {
    if hi > lo {
      TouchSpanSpec(v, he, lo, hi - 1, write, now, t);
    }
  }

  /** The span below `cur` leaves range `cur` as it was. */
  lemma TouchSpanAt(v: map<u32, HotItem>, he: ItemId, lo: u32, cur: u32, write: bool, now: u64, t: Tunables)
    requires ValidTunables(t) && lo <= cur
    ensures var w := TouchSpan(v, he, lo, cur, write, now, t);
      (cur in w <==> cur in v) && (cur in v ==> w[cur] == v[cur])
  {
    TouchSpanSpec(v, he, lo, cur, write, now, t);
  }

  /** Touching range `cur` after the ranges `[lo, cur)` extends the span by one. */
  lemma TouchSpanNext(v: map<u32, HotItem>, he: ItemId, lo: u32, cur: u32, write: bool, now: u64, t: Tunables,
                      before: map<u32, HotItem>, after: map<u32, HotItem>)
    requires ValidTunables(t) && lo <= cur < U32 - 1
    requires before == TouchSpan(v, he, lo, cur, write, now, t)
    requires after == before[cur := RangeAfter(before, he, cur, write, now, t)]
    ensures after == TouchSpan(v, he, lo, cur + 1, write, now, t)
  {
    TouchSpanAt(v, he, lo, cur, write, now, t);
    assert RangeAfter(before, he, cur, write, now, t) == RangeAfter(v, he, cur, write, now, t);
  }

  /**
   * One iteration of the range loop on values: range `cur` is touched
   * when it exists or can be created, extending the span by one; else the
   * loop stops at `cur` with the ranges unchanged.
   */
  lemma TouchLoopStep(v0: map<u32, HotItem>, he: ItemId, first: u32, cur: u32, end: u32,
                      write: bool, now: u64, t: Tunables, ra: map<u32, Alloc>, ok: bool,
                      before: map<u32, HotItem>, after: map<u32, HotItem>)
    requires ValidTunables(t) && first <= cur < end
    requires before == TouchSpan(v0, he, first, cur, write, now, t)
    requires StopAt(v0, first, end, ra) == StopAt(v0, cur, end, ra)
    requires ok <==> cur in before || Succeeds(AllocAt(ra, cur))
    requires after == if ok then before[cur := RangeAfter(before, he, cur, write, now, t)] else before
    ensures ok ==> after == TouchSpan(v0, he, first, cur + 1, write, now, t)
    ensures ok ==> StopAt(v0, first, end, ra) == StopAt(v0, cur + 1, end, ra)
    ensures !ok ==> StopAt(v0, first, end, ra) == cur
  {
    TouchSpanAt(v0, he, first, cur, write, now, t);
    StopAtStep(v0, cur, end, ra);
    if ok {
      TouchSpanNext(v0, he, first, cur, write, now, t, before, after);
    }
  }

  /** Where the range loop stops: the first index at or after `cur` whose
   *  range is missing and cannot be created, else `end`. */
  function StopAt(v: map<u32, HotItem>, cur: u32, end: u32, ra: map<u32, Alloc>): (r: u32)
    ensures cur <= r && (cur <= end ==> r <= end)
    decreases end - cur
  {
    if cur >= end then cur
    else if cur !in v && !Succeeds(AllocAt(ra, cur)) then cur
    else StopAt(v, cur + 1, end, ra)
  }

  /** One step of the stop index: range `cur` either stops the loop or is passed. */
  lemma StopAtStep(v: map<u32, HotItem>, cur: u32, end: u32, ra: map<u32, Alloc>)
    requires cur < end
    ensures StopAt(v, cur, end, ra) == if cur !in v && !Succeeds(AllocAt(ra, cur)) then cur else StopAt(v, cur + 1, end, ra)
  {
  }

  lemma {:induction false} StopAtSpec(v: map<u32, HotItem>, cur: u32, end: u32, ra: map<u32, Alloc>)
    ensures var r := StopAt(v, cur, end, ra);
      && (forall k: u32 :: cur <= k < r ==> k in v || Succeeds(AllocAt(ra, k)))
      && (r < end ==> r !in v && !Succeeds(AllocAt(ra, r)))
      && (cur < end ==> r < end || r == end)
    decreases end - cur
  {
    if cur < end && (cur in v || Succeeds(AllocAt(ra, cur))) {
      StopAtSpec(v, cur + 1, end, ra);
    }
  }

  lemma RangeViewKeys(items: Items, tree: map<u64, ItemId>, nextId: nat, he: ItemId)
    requires IndexOk(items, tree, nextId) && he in items && items[he].InodeItem?
    ensures RangeView(items, he).Keys == items[he].rangeTree.Keys
  {
    forall s | s in items[he].rangeTree
      ensures s in RangeView(items, he)
    {
      RangeFacts(items, tree, nextId, he, s);
    }
  }

  /** Replacing range `s`'s item replaces its entry only. */
  lemma RangeViewSet(items: Items, tree: map<u64, ItemId>, nextId: nat, he: ItemId, s: u32, it: HotItem)
    requires IndexOk(items, tree, nextId) && he in items && items[he].InodeItem?
    requires s in items[he].rangeTree
    ensures var items' := items[items[he].rangeTree[s] := it];
      he in items' && items'[he] == items[he] &&
      RangeView(items', he) == RangeView(items, he)[s := it]
  {
    var hr := items[he].rangeTree[s];
    RangeFacts(items, tree, nextId, he, s);
    forall s' | s' in items[he].rangeTree && s' != s
      ensures items[he].rangeTree[s'] != hr
    {
      RangeFacts(items, tree, nextId, he, s');
    }
    var items' := items[hr := it];
    assert RangeView(items', he) == RangeView(items, he)[s := it];
  }

  /** Inserting a new item `n` under range `s` adds that entry only. */
  lemma RangeViewAdd(items: Items, tree: map<u64, ItemId>, nextId: nat, he: ItemId, s: u32, it: HotItem)
    requires IndexOk(items, tree, nextId) && he in items && items[he].InodeItem?
    requires s !in items[he].rangeTree
    ensures var items' := items[nextId := it][he := items[he].(rangeTree := items[he].rangeTree[s := nextId])];
      RangeView(items', he) == RangeView(items, he)[s := it]
  {
    FreshIsNew(items, tree, nextId);
    forall s' | s' in items[he].rangeTree
      ensures items[he].rangeTree[s'] != nextId && items[he].rangeTree[s'] != he
    {
      RangeFacts(items, tree, nextId, he, s');
    }
    var items' := items[nextId := it][he := items[he].(rangeTree := items[he].rangeTree[s := nextId])];
    assert RangeView(items', he) == RangeView(items, he)[s := it];
  }

  /**
   * Find, touch, put on an existing range: the reference the find took is
   * dropped again, so only the frequency data changes.
   */
  lemma TouchFoundItems(items: Items, he: ItemId, s: u32, write: bool, now: u64, t: Tunables)
    requires ValidTunables(t) && he in items && items[he].InodeItem? && s in items[he].rangeTree
    requires items[he].rangeTree[s] in items && items[he].rangeTree[s] != he
    requires items[items[he].rangeTree[s]].comm.refs >= 1
    ensures var hr := items[he].rangeTree[s];
      var found := items[hr := WithRefs(items[hr], items[hr].comm.refs + 1)];
      PutRangeItems(found[hr := Touched(found[hr], write, now, t)], he, s)
        == items[hr := Touched(items[hr], write, now, t)]
  {
    var hr := items[he].rangeTree[s];
    var found := items[hr := WithRefs(items[hr], items[hr].comm.refs + 1)];
    var touched := found[hr := Touched(found[hr], write, now, t)];
    assert touched[he] == items[he] && touched[hr].comm.refs > 1;
    assert WithRefs(touched[hr], touched[hr].comm.refs - 1) == Touched(items[hr], write, now, t);
  }

  /**
   * Find, touch, put on a range just created: the new item keeps only the
   * tree's reference.
   */
  lemma TouchAddedItems(items: Items, nextId: nat, he: ItemId, s: u32, write: bool, now: u64, t: Tunables)
    requires ValidTunables(t) && he in items && items[he].InodeItem? && nextId !in items
    ensures var added := AddRange(items, nextId, he, s, t);
      PutRangeItems(added[nextId := Touched(added[nextId], write, now, t)], he, s)
        == items[nextId := WithRefs(Touched(NewRange(he, s, t), write, now, t), 1)]
                [he := items[he].(rangeTree := items[he].rangeTree[s := nextId])]
  {
    var added := AddRange(items, nextId, he, s, t);
    var touched := added[nextId := Touched(added[nextId], write, now, t)];
    assert touched[he].rangeTree[s] == nextId;
    assert WithRefs(touched[nextId], 1) == WithRefs(Touched(NewRange(he, s, t), write, now, t), 1);
  }

  /** Changing the inode's own common part leaves its ranges alone. */
  lemma RangeViewOwner(items: Items, tree: map<u64, ItemId>, nextId: nat, he: ItemId, it: HotItem)
    requires IndexOk(items, tree, nextId) && he in items && items[he].InodeItem?
    requires it.InodeItem? && it.rangeTree == items[he].rangeTree
    ensures RangeView(items[he := it], he) == RangeView(items, he)
  {
    forall s' | s' in items[he].rangeTree
      ensures items[he].rangeTree[s'] != he
    {
      RangeFacts(items, tree, nextId, he, s');
    }
    assert RangeView(items[he := it], he) == RangeView(items, he);
  }

  /** The inode item filed under `ino`, if any. */
  ghost function InodeOf(items: Items, tree: map<u64, ItemId>, ino: u64): Option<HotItem>
  {
    if ino in tree && tree[ino] in items then Some(items[tree[ino]]) else None
  }

  /** The range items of the inode filed under `ino` (none if there is no such inode). */
  ghost function RangesOf(items: Items, tree: map<u64, ItemId>, ino: u64): map<u32, HotItem>
  {
    if ino in tree && tree[ino] in items && items[tree[ino]].InodeItem?
    then RangeView(items, tree[ino]) else map[]
  }

  /** The inode item after one access, apart from its range tree: an
   *  existing one is touched; a new one keeps the tree's reference only. */
  function InodeAfter(o: Option<HotItem>, ino: u64, write: bool, now: u64, t: Tunables): HotItem
    requires ValidTunables(t)
  {
    if o.Some? then Touched(o.value, write, now, t)
    else WithRefs(Touched(NewInode(ino, t), write, now, t), 1)
  }

  /** Bucket `b` holds exactly the items of the map's kind linked to `b`. */
  lemma BucketMembers(items: Items, heat: seq<MapHead>, inodes: bool, b: nat, id: ItemId)
    requires MapOk(items, heat, inodes) && b < HEAT_MAP_SIZE && id in items
    ensures id in heat[b].nodeList <==> items[id].InodeItem? == inodes && items[id].comm.link == Some(b)
  {
    LinkFacts(items, heat, inodes, id);
    if id in heat[b].nodeList {
      NodeFacts(items, heat, inodes, b, id);
    }
  }

  /** With no item linked, every bucket of a consistent map is empty. */
  lemma UnlinkedMapsEmpty(items: Items, heat: seq<MapHead>, inodes: bool)
    requires MapOk(items, heat, inodes)
    requires forall id :: id in items ==> items[id].comm.link.None?
    ensures forall b :: 0 <= b < |heat| ==> heat[b] == MapHead([], b)
    ensures Entries(heat) == 0
  {
    forall b | 0 <= b < |heat|
      ensures heat[b] == MapHead([], b)
    {
      BucketFacts(items, heat, inodes, b);
      if heat[b].nodeList != [] {
        NodeFacts(items, heat, inodes, b, heat[b].nodeList[0]);
      }
    }
    EntriesNone(heat);
  }

  /** Unlinking items leaves the inode reference counts alone. */
  lemma InodeRefsUnlinked(items: Items, items': Items, tree: map<u64, ItemId>)
    requires items'.Keys == items.Keys
    requires forall id :: id in items ==> items'[id] == WithLink(items[id], None)
    ensures InodeRefs(items', tree) == InodeRefs(items, tree)
  {
  }

  lemma DecayedRefl(items: Items)
    ensures Decayed(items, items)
  {
    forall id | id in items
      ensures items[id] == WithRefs(items[id], items[id].comm.refs)
    {
    }
  }

  /** The item sits on a bucket below `i`. */
  predicate LinkedBelow(it: HotItem, i: int)
  {
    it.comm.link.Some? && it.comm.link.value < i
  }

  /** The items after the first `k` nodes of `list0` have been unlinked. */
  ghost function FreedPrefix(items0: Items, list0: seq<ItemId>, k: nat): Items
    requires k <= |list0|
  {
    map id | id in items0 :: if id in list0[..k] then WithLink(items0[id], None) else items0[id]
  }

  /** Where `hot_map_list_free` of bucket `b` stands after `k` nodes: the
   *  list has lost its first `k` nodes, they are unlinked, and the count
   *  has dropped by `k`. */
  ghost predicate ListFreeProgress(items0: Items, nr0: int, h0: seq<MapHead>, list0: seq<ItemId>, b: nat,
                                   k: nat, items: Items, nr: int, h: seq<MapHead>)
  {
    && k <= |list0| && b < |h0| && NoDup(list0)
    && |h| == |h0| && h == h0[b := h[b]] && h[b].nodeList == list0[k..]
    && nr == (nr0 - k) % U32
    && items == FreedPrefix(items0, list0, k)
  }

  /** Unlinking the head of the list moves the list free from `k` to `k + 1`. */
  lemma ListFreeStep(items0: Items, nr0: int, h0: seq<MapHead>, list0: seq<ItemId>, b: nat, k: nat,
                     itemsA: Items, nrA: int, hA: seq<MapHead>, items: Items, nr: int, h: seq<MapHead>)
    requires ListFreeProgress(items0, nr0, h0, list0, b, k, itemsA, nrA, hA)
    requires hA[b].nodeList != []
    requires var id := hA[b].nodeList[0];
      && id in itemsA && items == itemsA[id := WithLink(itemsA[id], None)]
      && h == hA[b := hA[b].(nodeList := hA[b].nodeList[1..])]
    requires nr == (nrA - 1) % U32
    ensures ListFreeProgress(items0, nr0, h0, list0, b, k + 1, items, nr, h)
  {
    var id := hA[b].nodeList[0];
    assert id == list0[k];
    assert list0[..k + 1] == list0[..k] + [id];
    assert id !in list0[..k];
    assert list0[k + 1..] == list0[k..][1..];
    ModSub(nr0 - k, 1, U32);
  }

  /** Before any node is freed nothing has changed. */
  lemma ListFreeStart(items0: Items, list0: seq<ItemId>)
    ensures FreedPrefix(items0, list0, 0) == items0
  {
  }

  /** Once the whole list is freed, exactly its nodes are unlinked. */
  lemma ListFreeDone(items0: Items, list0: seq<ItemId>)
    ensures forall id :: id in FreedPrefix(items0, list0, |list0|) ==>
      FreedPrefix(items0, list0, |list0|)[id] ==
        if id in list0 then WithLink(items0[id], None) else items0[id]
  {
    assert list0[..|list0|] == list0;
  }

  /** Freeing bucket `i` of both maps drops `hot_map_nr` by the nodes of
   *  that bucket, so after bucket `i` it has dropped by all nodes below
   *  `i + 1`. */
  lemma ExitCountStep(nr0: int, im0: seq<MapHead>, rm0: seq<MapHead>, i: nat, nrA: int, nrC: int)
    requires i < |im0| && i < |rm0|
    requires nrA == (nr0 - Entries(im0[..i]) - Entries(rm0[..i])) % U32
    requires nrC == ((nrA - |im0[i].nodeList|) % U32 - |rm0[i].nodeList|) % U32
    ensures nrC == (nr0 - Entries(im0[..i + 1]) - Entries(rm0[..i + 1])) % U32
  {
    assert im0[..i + 1] == im0[..i] + [im0[i]];
    assert rm0[..i + 1] == rm0[..i] + [rm0[i]];
    EntriesAppend(im0[..i], [im0[i]]);
    EntriesAppend(rm0[..i], [rm0[i]]);
    assert Entries([im0[i]]) == |im0[i].nodeList| by { assert [im0[i]][1..] == []; }
    assert Entries([rm0[i]]) == |rm0[i].nodeList| by { assert [rm0[i]][1..] == []; }
    var a, b := Entries(im0[..i]), Entries(rm0[..i]);
    ModSub(nr0 - a - b, |im0[i].nodeList|, U32);
    ModSub(nr0 - a - b - |im0[i].nodeList|, |rm0[i].nodeList|, U32);
  }

  /** The items after the buckets below `i` have been freed. */
  ghost function UnlinkedBelow(items0: Items, i: int): Items
  {
    map id | id in items0 :: if LinkedBelow(items0[id], i) then WithLink(items0[id], None) else items0[id]
  }

  /** A heat map whose buckets below `i` have been freed. */
  ghost function ClearedBelow(heat: seq<MapHead>, i: int): seq<MapHead>
    requires |heat| <= HEAT_MAP_SIZE
  {
    seq(|heat|, c requires 0 <= c < |heat| => if c < i then MapHead([], c) else heat[c])
  }

  /** Unlinking the items of bucket `i` extends "unlinked below `i`" to `i + 1`. */
  lemma ExitItemsStep(items0: Items, itemsA: Items, items: Items, i: nat)
    requires itemsA == UnlinkedBelow(items0, i) && items.Keys == itemsA.Keys
    requires forall id :: id in items ==>
      items[id] == if itemsA[id].comm.link == Some(i) then WithLink(itemsA[id], None) else itemsA[id]
    ensures items == UnlinkedBelow(items0, i + 1)
  {
  }

  lemma ClearedStep(heat: seq<MapHead>, i: nat)
    requires i < |heat| <= HEAT_MAP_SIZE
    ensures ClearedBelow(heat, i)[i := MapHead([], i)] == ClearedBelow(heat, i + 1)
  {
  }


  /** Where `hot_map_array_exit` stands before bucket `i`: the buckets
   *  below `i` are empty, their items unlinked, and `hot_map_nr` has
   *  dropped by their nodes. */
  ghost predicate ExitProgress(items0: Items, nr0: int, im0: seq<MapHead>, rm0: seq<MapHead>, i: nat,
                               items: Items, nr: int, im: seq<MapHead>, rm: seq<MapHead>)
  {
    && i <= |im0| <= HEAT_MAP_SIZE && i <= |rm0| <= HEAT_MAP_SIZE
    && items == UnlinkedBelow(items0, i)
    && im == ClearedBelow(im0, i) && rm == ClearedBelow(rm0, i)
    && nr == (nr0 - Entries(im0[..i]) - Entries(rm0[..i])) % U32
  }

  /** Freeing bucket `i` of both maps moves the progress from `i` to `i + 1`. */
  lemma ExitStep(items0: Items, nr0: int, im0: seq<MapHead>, rm0: seq<MapHead>, i: nat,
                 itemsA: Items, nrA: int, imA: seq<MapHead>, rmA: seq<MapHead>,
                 items: Items, nr: int, im: seq<MapHead>, rm: seq<MapHead>)
    requires ExitProgress(items0, nr0, im0, rm0, i, itemsA, nrA, imA, rmA)
    requires i < |im0| && i < |rm0| && i < HEAT_MAP_SIZE
    requires im == imA[i := MapHead([], i)] && rm == rmA[i := MapHead([], i)]
    requires nr == ((nrA - |imA[i].nodeList|) % U32 - |rmA[i].nodeList|) % U32
    requires items.Keys == itemsA.Keys
    requires forall id :: id in items ==>
      items[id] == if itemsA[id].comm.link == Some(i) then WithLink(itemsA[id], None) else itemsA[id]
    ensures ExitProgress(items0, nr0, im0, rm0, i + 1, items, nr, im, rm)
  {
    ClearedStep(im0, i);
    ClearedStep(rm0, i);
    ExitItemsStep(items0, itemsA, items, i);
    ExitCountStep(nr0, im0, rm0, i, nrA, nr);
  }

  /** Dropping a correct count by everything it counts leaves zero. */
  lemma CountDrained(nr0: int, a: int, b: int, nr: int)
    requires nr0 == (a + b) % U32 && nr == (nr0 - a - b) % U32
    ensures nr == 0
  {
    DivModUnique(nr0 - a - b, U32, -((a + b) / U32), 0);
  }

  /** Once every bucket is freed, no item is linked any more. */
  lemma ExitDone(items0: Items, heat: seq<MapHead>)
    requires |heat| == HEAT_MAP_SIZE
    ensures forall id :: id in UnlinkedBelow(items0, HEAT_MAP_SIZE) ==>
      UnlinkedBelow(items0, HEAT_MAP_SIZE)[id] == WithLink(items0[id], None)
    ensures forall b :: 0 <= b < HEAT_MAP_SIZE ==> ClearedBelow(heat, HEAT_MAP_SIZE)[b] == MapHead([], b)
  {
    forall id | id in items0
      ensures UnlinkedBelow(items0, HEAT_MAP_SIZE)[id] == WithLink(items0[id], None)
    {
      if items0[id].comm.link.None? {
        assert WithLink(items0[id], None) == items0[id];
      }
    }
  }

  /** Counts never above the initial ones, and strictly below them for
   *  every key below `bound`. */
  predicate LoweredBelow(ir0: map<int, nat>, ir: map<int, nat>, bound: int)
  {
    && ir.Keys <= ir0.Keys
    && (forall k :: k in ir ==> ir[k] <= ir0[k])
    && (forall k :: k in ir && k < bound ==> ir[k] < ir0[k])
  }

  /** One round of the inode tree exit extends the range of strictly
   *  lowered counts from below `ino` to below `next`. */
  lemma ExitRefsStep(ir0: map<int, nat>, irPrev: map<int, nat>, ir: map<int, nat>, ino: int, next: int)
    requires LoweredBelow(ir0, irPrev, ino)
    requires ir.Keys <= irPrev.Keys && forall k :: k in ir ==> ir[k] <= irPrev[k]
    requires forall k :: k in ir && ino <= k < next ==> ir[k] < irPrev[k]
    ensures LoweredBelow(ir0, ir, next)
  {
  }

  /** The inode item after find, touch and put has the common part of `InodeAfter`. */
  lemma InodeAfterPut(o: Option<HotItem>, ino: u64, write: bool, now: u64, t: Tunables, found: HotItem)
    requires ValidTunables(t)
    requires found == if o.Some? then WithRefs(o.value, o.value.comm.refs + 1) else NewInode(ino, t)
    ensures var it := Touched(found, write, now, t);
      WithRefs(it, it.comm.refs - 1).comm == InodeAfter(o, ino, write, now, t).comm
  {
  }
}
