/**
 * The hot-data tracking engine of one super block (`struct hot_info`):
 * the inode tree, the per-inode range trees, the two heat maps and the
 * `hot_map_nr` count, changed in place by the operations of
 * fs/hot_tracking.c.  The invariant and every state transition are
 * stated over values in `HotState`; the methods here follow the C code
 * step by step and call those lemmas.
 *
 * Everything is sequential: the spinlocks, kref atomicity and the
 * `-EEXIST` retry race of the find functions are not modelled.
 */
module HotTracking {
  import opened Base
  import opened HotTypes
  import opened HotFreq
  import opened Radix
  import opened HotState

  class HotInfo {
    /** The tuning constants of the header that is not part of this model. */
    const tun: Tunables
    /** Every allocated hot item, by the model's pointer. */
    var items: Items
    /** `hot_inode_tree`. */
    var inodeTree: map<u64, ItemId>
    const heatInodeMap: array<MapHead>
    const heatRangeMap: array<MapHead>
    /** `hot_map_nr`, an unsigned int. */
    var hotMapNr: u32
    /** The next id an allocation hands out; ids are never reused. */
    var nextId: ItemId

    ghost predicate Valid()
      reads this, heatInodeMap, heatRangeMap
    {
      && ValidTunables(tun)
      && heatInodeMap != heatRangeMap
      && StateOk(items, inodeTree, nextId, heatInodeMap[..], heatRangeMap[..])
    }

    /** `hot_map_nr` counts the linked items, modulo 2^32. */
    ghost predicate Counted()
      reads this, heatInodeMap, heatRangeMap
    {
      CountOk(hotMapNr, heatInodeMap[..], heatRangeMap[..])
    }

    /** `kzalloc` of a `struct hot_info`: empty trees, zeroed buckets. */
    constructor (t: Tunables)
      requires ValidTunables(t)
      ensures tun == t && items == map[] && inodeTree == map[]
      ensures hotMapNr == 0 && nextId == 0
      ensures fresh(heatInodeMap) && fresh(heatRangeMap) && heatInodeMap != heatRangeMap
      ensures heatInodeMap.Length == HEAT_MAP_SIZE && heatRangeMap.Length == HEAT_MAP_SIZE
      ensures forall i :: 0 <= i < HEAT_MAP_SIZE ==>
        heatInodeMap[i] == MapHead([], 0) && heatRangeMap[i] == MapHead([], 0)
    {
      tun := t;
      items := map[];
      inodeTree := map[];
      heatInodeMap := new MapHead[HEAT_MAP_SIZE](_ => MapHead([], 0));
      heatRangeMap := new MapHead[HEAT_MAP_SIZE](_ => MapHead([], 0));
      hotMapNr := 0;
      nextId := 0;
    }

    /** The heat map of inode items when `inodes`, else of range items. */
    function Heat(inodes: bool): array<MapHead>
    {
      if inodes then heatInodeMap else heatRangeMap
    }

    // -------------------------------------------------------------------
    // Heat maps

    /** `hot_map_array_init`: bucket `i` of both maps gets an empty list
     *  and temperature `i`. */
    method HotMapArrayInit()
      requires ValidTunables(tun) && heatInodeMap != heatRangeMap
      requires heatInodeMap.Length == HEAT_MAP_SIZE && heatRangeMap.Length == HEAT_MAP_SIZE
      requires IndexOk(items, inodeTree, nextId)
      requires forall id :: id in items ==> items[id].comm.link.None?
      modifies heatInodeMap, heatRangeMap
      ensures Valid() && (Counted() <==> hotMapNr == 0)
      ensures forall b :: 0 <= b < HEAT_MAP_SIZE ==>
        heatInodeMap[b] == MapHead([], b) && heatRangeMap[b] == MapHead([], b)
    {
      for i := 0 to HEAT_MAP_SIZE
        invariant forall c :: 0 <= c < i ==>
          heatInodeMap[c] == MapHead([], c) && heatRangeMap[c] == MapHead([], c)
      {
        heatInodeMap[i] := MapHead([], i);
        heatRangeMap[i] := MapHead([], i);
      }
      EmptyMapOk(items, heatInodeMap[..], true);
      EmptyMapOk(items, heatRangeMap[..], false);
    }

    /** Takes `id` off its heat list, if it is on one, counting
     *  `hot_map_nr` down (`list_del_init` in the free functions). */
    method Unlink(id: ItemId)
      requires Valid() && id in items
      modifies this, heatInodeMap, heatRangeMap
      ensures Valid() && (old(Counted()) ==> Counted())
      ensures items == old(items)[id := WithLink(old(items[id]), None)]
      ensures inodeTree == old(inodeTree) && nextId == old(nextId)
      ensures hotMapNr == DropCount(old(hotMapNr), old(items[id].comm.link))
      ensures heatInodeMap[..] == if old(items[id]).InodeItem?
        then Unlinked(old(heatInodeMap[..]), old(items[id].comm.link), id) else old(heatInodeMap[..])
      ensures heatRangeMap[..] == if old(items[id]).RangeItem?
        then Unlinked(old(heatRangeMap[..]), old(items[id].comm.link), id) else old(heatRangeMap[..])
    {
      var it := items[id];
      if it.comm.link.Some? {
        var b := it.comm.link.value;
        ghost var im, rm := heatInodeMap[..], heatRangeMap[..];
        UnlinkOk(items, inodeTree, nextId, im, rm, id);
        if it.InodeItem? {
          heatInodeMap[b] := heatInodeMap[b].(nodeList := Remove(heatInodeMap[b].nodeList, id));
          assert heatInodeMap[..] == Unlinked(im, it.comm.link, id);
        } else {
          heatRangeMap[b] := heatRangeMap[b].(nodeList := Remove(heatRangeMap[b].nodeList, id));
          assert heatRangeMap[..] == Unlinked(rm, it.comm.link, id);
        }
        ModSub(Entries(im) + Entries(rm), 1, U32);
        hotMapNr := (hotMapNr - 1) % U32;
        items := items[id := WithLink(it, None)];
      } else {
        assert items[id := WithLink(it, None)] == items;
      }
    }

    /**
     * `hot_map_list_free` on bucket `b`: every node is taken off the list
     * and `hot_map_nr` drops by one per node (as an unsigned int).
     */
    method HotMapListFree(inodes: bool, b: nat)
      requires Valid() && b < HEAT_MAP_SIZE
      modifies this, heatInodeMap, heatRangeMap
      ensures Valid() && (old(Counted()) ==> Counted())
      ensures inodeTree == old(inodeTree) && nextId == old(nextId)
      ensures hotMapNr == (old(hotMapNr) - |old(Heat(inodes)[b].nodeList)|) % U32
      ensures Heat(inodes)[..] == old(Heat(inodes)[..])[b := MapHead([], b)]
      ensures Heat(!inodes)[..] == old(Heat(!inodes)[..])
      ensures items.Keys == old(items).Keys
      ensures forall id :: id in items ==>
        items[id] == if id in old(Heat(inodes)[b].nodeList) then WithLink(old(items)[id], None) else old(items)[id]
    {
      var heat := Heat(inodes);
      ghost var items0, nr0, h0, other0 := items, hotMapNr, heat[..], Heat(!inodes)[..];
      ghost var list0 := heat[b].nodeList;
      BucketFacts(items, h0, inodes, b);
      ListFreeStart(items0, list0);
      ghost var k := 0;
      while heat[b].nodeList != []
        invariant Valid() && (old(Counted()) ==> Counted())
        invariant inodeTree == old(inodeTree) && nextId == old(nextId)
        invariant Heat(!inodes)[..] == other0
        invariant ListFreeProgress(items0, nr0, h0, list0, b, k, items, hotMapNr, heat[..])
        decreases |heat[b].nodeList|
      {
        ListFreeHead(inodes, b, items0, nr0, h0, list0, k);
        k := k + 1;
      }
      BucketFacts(items, heat[..], inodes, b);
      ListFreeDone(items0, list0);
    }

    /** One iteration of `hot_map_list_free`: unlinks the head of bucket `b`. */
    method ListFreeHead(inodes: bool, b: nat, ghost items0: Items, ghost nr0: int, ghost h0: seq<MapHead>,
                        ghost list0: seq<ItemId>, ghost k: nat)
      requires Valid() && b < HEAT_MAP_SIZE && Heat(inodes)[b].nodeList != []
      requires ListFreeProgress(items0, nr0, h0, list0, b, k, items, hotMapNr, Heat(inodes)[..])
      modifies this, heatInodeMap, heatRangeMap
      ensures ListFreeProgress(items0, nr0, h0, list0, b, k + 1, items, hotMapNr, Heat(inodes)[..])
      ensures Valid() && (old(Counted()) ==> Counted())
      ensures inodeTree == old(inodeTree) && nextId == old(nextId)
      ensures Heat(!inodes)[..] == old(Heat(!inodes)[..])
    {
      var heat := Heat(inodes);
      var id := heat[b].nodeList[0];
      ghost var itemsA, nrA, hA := items, hotMapNr, heat[..];
      HeadIsLinked(items, heat[..], inodes, b);
      Unlink(id);
      ListFreeStep(items0, nr0, h0, list0, b, k, itemsA, nrA, hA, items, hotMapNr, heat[..]);
    }

    /** Both list frees of bucket `i` in `hot_map_array_exit`, which moves
     *  the exit from bucket `i` to bucket `i + 1`. */
    method HotMapBucketFree(i: nat, ghost items0: Items, ghost nr0: int, ghost im0: seq<MapHead>, ghost rm0: seq<MapHead>)
      requires Valid() && i < HEAT_MAP_SIZE
      requires |im0| == HEAT_MAP_SIZE && |rm0| == HEAT_MAP_SIZE
      requires ExitProgress(items0, nr0, im0, rm0, i, items, hotMapNr, heatInodeMap[..], heatRangeMap[..])
      modifies this, heatInodeMap, heatRangeMap
      ensures ExitProgress(items0, nr0, im0, rm0, i + 1, items, hotMapNr, heatInodeMap[..], heatRangeMap[..])
      ensures Valid() && (old(Counted()) ==> Counted())
      ensures inodeTree == old(inodeTree) && nextId == old(nextId)
      ensures heatInodeMap[..] == old(heatInodeMap[..])[i := MapHead([], i)]
      ensures heatRangeMap[..] == old(heatRangeMap[..])[i := MapHead([], i)]
      ensures hotMapNr == (((old(hotMapNr) - |old(heatInodeMap[i].nodeList)|) % U32) - |old(heatRangeMap[i].nodeList)|) % U32
      ensures items.Keys == old(items).Keys
      ensures forall id :: id in items ==>
        items[id] == if old(items)[id].comm.link == Some(i) then WithLink(old(items)[id], None) else old(items)[id]
    {
      ghost var itemsA, nrA, imA, rmA := items, hotMapNr, heatInodeMap[..], heatRangeMap[..];
      HotMapListFree(true, i);
      HotMapListFree(false, i);
      forall id | id in items
        ensures items[id] == if itemsA[id].comm.link == Some(i) then WithLink(itemsA[id], None) else itemsA[id]
      {
        BucketMembers(itemsA, imA, true, i, id);
        BucketMembers(itemsA, rmA, false, i, id);
        assert id in rmA[i].nodeList <==> id in old(heatRangeMap[i].nodeList);
      }
      ExitStep(items0, nr0, im0, rm0, i, itemsA, nrA, imA, rmA, items, hotMapNr, heatInodeMap[..], heatRangeMap[..]);
    }

    /**
     * `hot_map_array_exit`: frees the lists of every bucket of both maps.
     * Afterwards no item is linked and `hot_map_nr` has dropped by the
     * number of nodes, so a correct count becomes zero.
     */
    method HotMapArrayExit()
      requires Valid()
      modifies this, heatInodeMap, heatRangeMap
      ensures Valid() && (old(Counted()) ==> Counted())
      ensures inodeTree == old(inodeTree) && nextId == old(nextId)
      ensures forall b :: 0 <= b < HEAT_MAP_SIZE ==>
        heatInodeMap[b] == MapHead([], b) && heatRangeMap[b] == MapHead([], b)
      ensures items.Keys == old(items).Keys
      ensures forall id :: id in items ==> items[id] == WithLink(old(items)[id], None)
      ensures hotMapNr == (old(hotMapNr) - Entries(old(heatInodeMap[..])) - Entries(old(heatRangeMap[..]))) % U32
      ensures old(Counted()) ==> hotMapNr == 0
    {
      ghost var items0, nr0, im0, rm0 := items, hotMapNr, heatInodeMap[..], heatRangeMap[..];
      assert items == UnlinkedBelow(items0, 0);
      assert heatInodeMap[..] == ClearedBelow(im0, 0) && heatRangeMap[..] == ClearedBelow(rm0, 0);
      var i := 0;
      while i < HEAT_MAP_SIZE
        invariant 0 <= i <= HEAT_MAP_SIZE
        invariant Valid() && (old(Counted()) ==> Counted())
        invariant inodeTree == old(inodeTree) && nextId == old(nextId)
        invariant ExitProgress(items0, nr0, im0, rm0, i, items, hotMapNr, heatInodeMap[..], heatRangeMap[..])
      {
        HotMapBucketFree(i, items0, nr0, im0, rm0);
        i := i + 1;
      }
      ExitDone(items0, im0);
      ExitDone(items0, rm0);
      assert im0[..i] == im0 && rm0[..i] == rm0;
      if old(Counted()) {
        CountDrained(nr0, Entries(im0), Entries(rm0), hotMapNr);
      }
    }

    // -------------------------------------------------------------------
    // Finding and creating items

    /**
     * `hot_inode_item_find`: returns the inode item filed under `ino`
     * with one more reference; otherwise allocates one (failing with
     * `-ENOMEM`, or with the error of `radix_tree_preload`), files it
     * and returns it holding the tree's reference and the caller's.
     */
    method InodeItemFind(ino: u64, alloc: Alloc) returns (r: Result<ItemId>)
      requires Valid()
      modifies this
      ensures Valid() && (old(Counted()) ==> Counted()) && hotMapNr == old(hotMapNr)
      ensures ino in old(inodeTree) ==>
        var he := old(inodeTree)[ino];
        && r == Ok(he) && he in old(items)
        && items == old(items)[he := WithRefs(old(items)[he], old(items)[he].comm.refs + 1)]
        && inodeTree == old(inodeTree) && nextId == old(nextId)
      ensures ino !in old(inodeTree) && !Succeeds(alloc) ==>
        r == Err(FailCode(alloc)) && items == old(items) && inodeTree == old(inodeTree) && nextId == old(nextId)
      ensures ino !in old(inodeTree) && Succeeds(alloc) ==>
        && r == Ok(old(nextId)) && old(nextId) !in old(items)
        && items == old(items)[old(nextId) := NewInode(ino, tun)]
        && inodeTree == old(inodeTree)[ino := old(nextId)] && nextId == old(nextId) + 1
      ensures r.Ok? ==>
        && ino in inodeTree && inodeTree[ino] == r.value
        && r.value in items && items[r.value].InodeItem? && items[r.value].ino == ino
        && items[r.value].comm.refs >= 2
    {
      ghost var im, rm := heatInodeMap[..], heatRangeMap[..];
      if ino in inodeTree {
        var he := inodeTree[ino];
        InoFacts(items, inodeTree, nextId, ino);
        ItemFacts(items, inodeTree, nextId, he);
        var it := WithRefs(items[he], items[he].comm.refs + 1);
        ReweightOneOk(items, inodeTree, nextId, im, rm, he, it);
        items := items[he := it];
        return Ok(he);
      }
      if !alloc.zallocOk {
        return Err(-ENOMEM);
      }
      if alloc.preload != 0 {
        return Err(alloc.preload);
      }
      var he := nextId;
      FreshIsNew(items, inodeTree, nextId);
      NewInodeOk(items, inodeTree, nextId, im, rm, ino, tun);
      items := items[he := NewInode(ino, tun)];
      inodeTree := inodeTree[ino := he];
      nextId := nextId + 1;
      r := Ok(he);
    }

    /**
     * `hot_range_item_find`: the same for range `s` of inode `he`; a new
     * range item is `RANGE_SIZE` bytes long and owned by `he`.
     */
    method RangeItemFind(he: ItemId, s: u32, alloc: Alloc) returns (r: Result<ItemId>)
      requires Valid() && he in items && items[he].InodeItem?
      modifies this
      ensures Valid() && (old(Counted()) ==> Counted()) && hotMapNr == old(hotMapNr)
      ensures inodeTree == old(inodeTree)
      ensures s in old(items[he].rangeTree) ==>
        var hr := old(items[he].rangeTree[s]);
        && r == Ok(hr) && hr in old(items) && nextId == old(nextId)
        && items == old(items)[hr := WithRefs(old(items)[hr], old(items)[hr].comm.refs + 1)]
      ensures s !in old(items[he].rangeTree) && !Succeeds(alloc) ==>
        r == Err(FailCode(alloc)) && items == old(items) && nextId == old(nextId)
      ensures s !in old(items[he].rangeTree) && Succeeds(alloc) ==>
        && r == Ok(old(nextId)) && old(nextId) !in old(items)
        && items == AddRange(old(items), old(nextId), he, s, tun) && nextId == old(nextId) + 1
      ensures r.Ok? ==>
        && he in items && items[he].InodeItem? && s in items[he].rangeTree && items[he].rangeTree[s] == r.value
        && r.value in items && items[r.value].RangeItem? && items[r.value].owner == he
        && items[r.value].start == s && items[r.value].comm.refs >= 2
    {
      ghost var im, rm := heatInodeMap[..], heatRangeMap[..];
      if s in items[he].rangeTree {
        var hr := items[he].rangeTree[s];
        RangeFacts(items, inodeTree, nextId, he, s);
        ItemFacts(items, inodeTree, nextId, hr);
        var it := WithRefs(items[hr], items[hr].comm.refs + 1);
        ReweightOneOk(items, inodeTree, nextId, im, rm, hr, it);
        items := items[hr := it];
        return Ok(hr);
      }
      if !alloc.zallocOk {
        return Err(-ENOMEM);
      }
      if alloc.preload != 0 {
        return Err(alloc.preload);
      }
      var hr := nextId;
      FreshIsNew(items, inodeTree, nextId);
      NewRangeOk(items, inodeTree, nextId, im, rm, he, s, tun);
      items := AddRange(items, nextId, he, s, tun);
      nextId := nextId + 1;
      r := Ok(hr);
    }

    // -------------------------------------------------------------------
    // Dropping references and freeing

    /**
     * `hot_range_item_put` on range `s` of inode `he`: drops a reference;
     * when it was the last one, `hot_range_item_free` unlinks the item
     * from its heat list (counting `hot_map_nr` down only if it was
     * linked), deletes it from the range tree and frees it.
     */
    method RangeItemPut(he: ItemId, s: u32)
      requires Valid() && he in items && items[he].InodeItem? && s in items[he].rangeTree
      modifies this, heatInodeMap, heatRangeMap
      ensures Valid() && (old(Counted()) ==> Counted())
      ensures inodeTree == old(inodeTree) && nextId == old(nextId)
      ensures heatInodeMap[..] == old(heatInodeMap[..])
      ensures old(items[he].rangeTree[s]) in old(items)
      ensures items == PutRangeItems(old(items), he, s)
      ensures he in items && items[he].InodeItem?
      ensures var refs := old(items)[old(items[he].rangeTree[s])].comm.refs;
        RangeRefs(items, he) == if refs > 1 then old(RangeRefs(items, he))[s := refs - 1]
                                else old(RangeRefs(items, he)) - {s}
      ensures var it := old(items)[old(items[he].rangeTree[s])];
        if it.comm.refs > 1 then hotMapNr == old(hotMapNr) && heatRangeMap[..] == old(heatRangeMap[..])
        else
          && hotMapNr == DropCount(old(hotMapNr), it.comm.link)
          && heatRangeMap[..] == Unlinked(old(heatRangeMap[..]), it.comm.link, old(items[he].rangeTree[s]))
    {
      var hr := items[he].rangeTree[s];
      PutRangeRefs(items, inodeTree, nextId, he, s);
      var it := items[hr];
      if it.comm.refs > 1 {
        ReweightOneOk(items, inodeTree, nextId, heatInodeMap[..], heatRangeMap[..], hr, WithRefs(it, it.comm.refs - 1));
        items := items[hr := WithRefs(it, it.comm.refs - 1)];
      } else {
        ghost var items0 := items;
        RangeFacts(items, inodeTree, nextId, he, s);
        ItemFacts(items, inodeTree, nextId, hr);
        Unlink(hr);
        ghost var im, rm := heatInodeMap[..], heatRangeMap[..];
        ghost var counted := Counted();
        assert items[he] == items0[he] && items[he].rangeTree[s] == hr;
        DeleteRangeOk(items, inodeTree, nextId, im, rm, he, s);
        assert PutRangeItems(items, he, s) == PutRangeItems(items0, he, s);
        items := (items - {hr})[he := items[he].(rangeTree := items[he].rangeTree - {s})];
        assert heatInodeMap[..] == im && heatRangeMap[..] == rm;
        assert Counted() == counted;
      }
    }

    /** The inner loop of `hot_range_tree_free`: one put per range of the batch. */
    method PutBatch(he: ItemId, batch: seq<u32>, ghost items0: Items)
      requires Valid() && he in items0 && items0[he].InodeItem?
      requires RangesPut(items0, items, he)
      requires forall j :: 0 <= j < |batch| ==> batch[j] in items[he].rangeTree
      requires forall i, j :: 0 <= i < j < |batch| ==> batch[i] < batch[j]
      modifies this, heatInodeMap, heatRangeMap
      ensures Valid() && (old(Counted()) ==> Counted())
      ensures inodeTree == old(inodeTree) && nextId == old(nextId)
      ensures heatInodeMap[..] == old(heatInodeMap[..])
      ensures RangesPut(items0, items, he)
      ensures var rr, rrB := RangeRefs(items, he), old(RangeRefs(items, he));
        && rr.Keys <= rrB.Keys
        && (forall k :: k in rr ==> rr[k] <= rrB[k])
        && (forall j :: 0 <= j < |batch| && batch[j] in rr ==> rr[batch[j]] < rrB[batch[j]])
        && Total(rr) + |batch| <= Total(rrB)
    {
      ghost var rrB: map<u32, nat> := RangeRefs(items, he);
      forall j | 0 <= j < |batch|
        ensures batch[j] in rrB
      {
        RangeRefsKeys(items, inodeTree, nextId, he);
      }
      BatchStart(rrB, batch);
      var i := 0;
      while i < |batch|
        invariant 0 <= i <= |batch|
        invariant Valid() && (old(Counted()) ==> Counted())
        invariant inodeTree == old(inodeTree) && nextId == old(nextId)
        invariant heatInodeMap[..] == old(heatInodeMap[..])
        invariant RangesPut(items0, items, he)
        invariant BatchProgress(rrB, RangeRefs(items, he), batch, i)
      {
        PutBatchOne(he, batch, i, items0, rrB);
        i := i + 1;
      }
    }

    /** One iteration of the put loop of `hot_range_tree_free`. */
    method PutBatchOne(he: ItemId, batch: seq<u32>, i: nat, ghost items0: Items, ghost rrB: map<u32, nat>)
      requires Valid() && he in items0 && items0[he].InodeItem? && RangesPut(items0, items, he)
      requires i < |batch| && forall a, b :: 0 <= a < b < |batch| ==> batch[a] < batch[b]
      requires BatchProgress(rrB, RangeRefs(items, he), batch, i)
      modifies this, heatInodeMap, heatRangeMap
      ensures Valid() && (old(Counted()) ==> Counted())
      ensures inodeTree == old(inodeTree) && nextId == old(nextId)
      ensures heatInodeMap[..] == old(heatInodeMap[..])
      ensures RangesPut(items0, items, he)
      ensures BatchProgress(rrB, RangeRefs(items, he), batch, i + 1)
    {
      var s := batch[i];
      ghost var rr: map<u32, nat> := RangeRefs(items, he);
      assert s in rr;
      RangesPutStep(items0, items, inodeTree, nextId, he, s);
      ItemFacts(items, inodeTree, nextId, items[he].rangeTree[s]);
      RangeItemPut(he, s);
      BatchStep(rr, RangeRefs(items, he), rrB, batch, i);
    }

    /**
     * One round of `hot_range_tree_free` from cursor `start`: a gang
     * lookup of at most eight range indexes at or above `start` and a put
     * of each.  With none left it reports `more == false` and changes
     * nothing; otherwise every range index from `start` below the new
     * cursor `next` (one past the last of the batch, as a u32) has lost a
     * reference.
     */
    method RangeFreeRound(he: ItemId, start: u32, ghost items0: Items) returns (more: bool, next: u32)
      requires Valid() && he in items0 && items0[he].InodeItem? && RangesPut(items0, items, he)
      modifies this, heatInodeMap, heatRangeMap
      ensures Valid() && (old(Counted()) ==> Counted())
      ensures inodeTree == old(inodeTree) && nextId == old(nextId)
      ensures heatInodeMap[..] == old(heatInodeMap[..])
      ensures RangesPut(items0, items, he)
      ensures !more ==> items == old(items) && forall k :: k in items[he].rangeTree ==> k < start
      ensures var rr, rrB := RangeRefs(items, he), old(RangeRefs(items, he));
        && rr.Keys <= rrB.Keys
        && (forall k :: k in rr ==> rr[k] <= rrB[k])
        && (more ==> Total(rr) < Total(rrB) && forall k :: k in rr && start <= k < next ==> rr[k] < rrB[k])
    {
      RangeRefsKeys(items, inodeTree, nextId, he);
      GangLookupBasics(items[he].rangeTree.Keys, start, 8);
      var batch: seq<u32> := GangLookup(items[he].rangeTree.Keys, start, 8);
      if |batch| == 0 {
        return false, start;
      }
      var last: u32 := batch[|batch| - 1];
      ghost var keysB, rrB := items[he].rangeTree.Keys, RangeRefs(items, he);
      RangeFacts(items, inodeTree, nextId, he, last);
      next := Inc32(items[items[he].rangeTree[last]].start);
      more := true;
      PutBatch(he, batch, items0);
      BatchLowers(keysB, start, 8, rrB, RangeRefs(items, he));
    }

    /**
     * `hot_range_tree_free`: puts every range of `he`, in batches of at
     * most eight found by gang lookup from a u32 cursor that moves past
     * the last range index of each batch (wrapping to 0 past 2^32 - 1).
     * A range that was not on its last reference stays, with fewer.
     */
    method RangeTreeFree(he: ItemId)
      requires Valid() && he in items && items[he].InodeItem?
      modifies this, heatInodeMap, heatRangeMap
      ensures Valid() && (old(Counted()) ==> Counted())
      ensures inodeTree == old(inodeTree) && nextId == old(nextId)
      ensures heatInodeMap[..] == old(heatInodeMap[..])
      ensures RangesPut(old(items), items, he)
      ensures forall s :: s in old(items[he].rangeTree) && old(items[he].rangeTree[s]) in items ==>
        items[old(items[he].rangeTree[s])].comm.refs < old(items)[old(items[he].rangeTree[s])].comm.refs
    {
      ghost var items0 := items;
      RangesPutRefl(items, he);
      ghost var rr0: map<u32, nat> := RangeRefs(items, he);
      ghost var rrNow: map<u32, nat> := rr0;
      var start: u32 := 0;
      while true
        invariant Valid() && (old(Counted()) ==> Counted())
        invariant inodeTree == old(inodeTree) && nextId == old(nextId)
        invariant heatInodeMap[..] == old(heatInodeMap[..])
        invariant RangesPut(items0, items, he)
        invariant rrNow == RangeRefs(items, he)
        invariant LoweredBelow(rr0, rrNow, start)
        decreases Total(rrNow)
      {
        ghost var rrPrev: map<u32, nat> := rrNow;
        var more, next := RangeFreeRound(he, start, items0);
        if !more {
          break;
        }
        rrNow := RangeRefs(items, he);
        ExitRefsStep(rr0, rrPrev, rrNow, start, next);
        start := next;
      }
      RangeRefsKeys(items, inodeTree, nextId, he);
      forall s | s in items0[he].rangeTree && items0[he].rangeTree[s] in items
        ensures items[items0[he].rangeTree[s]].comm.refs < items0[items0[he].rangeTree[s]].comm.refs
      {
        assert RangeAt(items0, he, s) && RangeAt(items, he, s);
        assert s in rrNow;
      }
    }

    /**
     * `hot_inode_item_put`: drops a reference to inode item `he`; on the
     * last one `hot_inode_item_free` unlinks it, puts all its ranges,
     * deletes it from the inode tree and frees it.
     */
    method InodeItemPut(he: ItemId)
      requires Valid() && he in items && items[he].InodeItem?
      modifies this, heatInodeMap, heatRangeMap
      ensures Valid() && (old(Counted()) ==> Counted())
      ensures nextId == old(nextId)
      ensures Decayed(old(items), items)
      ensures var r, ino, ir := old(items[he].comm.refs), old(items[he].ino), old(InodeRefs(items, inodeTree));
        InodeRefs(items, inodeTree) == if r > 1 then ir[ino := r - 1] else ir - {ino}
      ensures old(items[he].comm.refs) > 1 ==>
        && items == old(items)[he := WithRefs(old(items[he]), old(items[he].comm.refs) - 1)]
        && inodeTree == old(inodeTree) && hotMapNr == old(hotMapNr)
        && heatInodeMap[..] == old(heatInodeMap[..]) && heatRangeMap[..] == old(heatRangeMap[..])
      ensures old(items[he].comm.refs) <= 1 ==>
        && he !in items && inodeTree == old(inodeTree) - {old(items[he].ino)}
        && RangesDecayed(old(items), items, he)
        && heatInodeMap[..] == Unlinked(old(heatInodeMap[..]), old(items[he].comm.link), he)
        && (forall s :: s in old(items[he].rangeTree) && old(items[he].rangeTree[s]) in items ==>
              items[old(items[he].rangeTree[s])].comm.refs < old(items)[old(items[he].rangeTree[s])].comm.refs)
    {
      var it := items[he];
      ItemFacts(items, inodeTree, nextId, he);
      if it.comm.refs > 1 {
        InodeRefsDec(items, inodeTree, nextId, he, it.comm.refs - 1);
        DecayedOne(items, he, it.comm.refs - 1);
        ReweightOneOk(items, inodeTree, nextId, heatInodeMap[..], heatRangeMap[..], he, WithRefs(it, it.comm.refs - 1));
        items := items[he := WithRefs(it, it.comm.refs - 1)];
      } else {
        ghost var items0 := items;
        Unlink(he);
        ghost var items1 := items;
        RangeTreeFree(he);
        ghost var items2 := items;
        ghost var im, rm := heatInodeMap[..], heatRangeMap[..];
        ghost var counted := Counted();
        DeleteInodeOk(items, inodeTree, nextId, im, rm, he);
        InodeFreeDecayed(items0, items1, items2, he);
        InodeRefsAfterFree(items0, items2 - {he}, inodeTree, nextId, he);
        inodeTree := inodeTree - {it.ino};
        items := items - {he};
        assert heatInodeMap[..] == im && heatRangeMap[..] == rm;
        assert Counted() == counted;
      }
    }

    /** The inner loop of `hot_inode_tree_exit`: one put per inode of the batch. */
    method InodeBatch(batch: seq<u64>)
      requires Valid()
      requires forall j :: 0 <= j < |batch| ==> batch[j] in inodeTree
      requires forall i, j :: 0 <= i < j < |batch| ==> batch[i] < batch[j]
      modifies this, heatInodeMap, heatRangeMap
      ensures Valid() && (old(Counted()) ==> Counted()) && nextId == old(nextId)
      ensures Decayed(old(items), items)
      ensures inodeTree.Keys <= old(inodeTree).Keys
      ensures forall ino :: ino in inodeTree ==> inodeTree[ino] == old(inodeTree)[ino]
      ensures var ir, irB := InodeRefs(items, inodeTree), old(InodeRefs(items, inodeTree));
        && ir.Keys <= irB.Keys
        && (forall k :: k in ir ==> ir[k] <= irB[k])
        && (forall j :: 0 <= j < |batch| && batch[j] in ir ==> ir[batch[j]] < irB[batch[j]])
        && Total(ir) + |batch| <= Total(irB)
    {
      InodeRefsKeys(items, inodeTree, nextId);
      DecayedRefl(items);
      ghost var irB: map<u64, nat> := InodeRefs(items, inodeTree);
      ghost var items0, tree0 := items, inodeTree;
      BatchStart(irB, batch);
      var i := 0;
      while i < |batch|
        invariant 0 <= i <= |batch|
        invariant Valid() && (old(Counted()) ==> Counted()) && nextId == old(nextId)
        invariant Decayed(items0, items)
        invariant inodeTree.Keys <= tree0.Keys
        invariant forall ino :: ino in inodeTree ==> inodeTree[ino] == tree0[ino]
        invariant BatchProgress(irB, InodeRefs(items, inodeTree), batch, i)
      {
        InodeBatchOne(batch, i, items0, tree0, irB);
        i := i + 1;
      }
    }

    /** One iteration of the put loop of `hot_inode_tree_exit`. */
    method InodeBatchOne(batch: seq<u64>, i: nat, ghost items0: Items, ghost tree0: map<u64, ItemId>,
                         ghost irB: map<u64, nat>)
      requires Valid() && i < |batch| && forall a, b :: 0 <= a < b < |batch| ==> batch[a] < batch[b]
      requires Decayed(items0, items)
      requires inodeTree.Keys <= tree0.Keys && forall ino :: ino in inodeTree ==> inodeTree[ino] == tree0[ino]
      requires BatchProgress(irB, InodeRefs(items, inodeTree), batch, i)
      modifies this, heatInodeMap, heatRangeMap
      ensures Valid() && (old(Counted()) ==> Counted()) && nextId == old(nextId)
      ensures Decayed(items0, items)
      ensures inodeTree.Keys <= tree0.Keys && forall ino :: ino in inodeTree ==> inodeTree[ino] == tree0[ino]
      ensures BatchProgress(irB, InodeRefs(items, inodeTree), batch, i + 1)
    {
      var ino := batch[i];
      ghost var ir: map<u64, nat> := InodeRefs(items, inodeTree);
      assert ino in ir;
      var he := inodeTree[ino];
      InoFacts(items, inodeTree, nextId, ino);
      ItemFacts(items, inodeTree, nextId, he);
      ghost var itemsPrev := items;
      InodeItemPut(he);
      DecayedTrans(items0, itemsPrev, items);
      BatchStep(ir, InodeRefs(items, inodeTree), irB, batch, i);
    }

    /**
     * One round of `hot_inode_tree_exit` from cursor `ino`: a gang lookup
     * of at most eight inode numbers at or above `ino` and a put of each.
     * With none left it reports `more == false` and changes nothing;
     * otherwise every inode number from `ino` below the new cursor `next`
     * (one past the last of the batch, as a u64) has lost a reference.
     */
    method InodeExitRound(ino: u64) returns (more: bool, next: u64)
      requires Valid()
      modifies this, heatInodeMap, heatRangeMap
      ensures Valid() && (old(Counted()) ==> Counted()) && nextId == old(nextId)
      ensures Decayed(old(items), items)
      ensures inodeTree.Keys <= old(inodeTree).Keys
      ensures forall k :: k in inodeTree ==> inodeTree[k] == old(inodeTree)[k]
      ensures !more ==> items == old(items) && inodeTree == old(inodeTree) && forall k :: k in inodeTree ==> k < ino
      ensures var ir, irB := InodeRefs(items, inodeTree), old(InodeRefs(items, inodeTree));
        && ir.Keys <= irB.Keys
        && (forall k :: k in ir ==> ir[k] <= irB[k])
        && (more ==> Total(ir) < Total(irB) && forall k :: k in ir && ino <= k < next ==> ir[k] < irB[k])
    {
      InodeRefsKeys(items, inodeTree, nextId);
      GangLookupBasics(inodeTree.Keys, ino, 8);
      var batch: seq<u64> := GangLookup(inodeTree.Keys, ino, 8);
      if |batch| == 0 {
        DecayedRefl(items);
        return false, ino;
      }
      ghost var keysB := inodeTree.Keys;
      var last: u64 := batch[|batch| - 1];
      InoFacts(items, inodeTree, nextId, last);
      next := Inc64(items[inodeTree[last]].ino);
      more := true;
      ghost var irB := InodeRefs(items, inodeTree);
      InodeBatch(batch);
      BatchLowers(keysB, ino, 8, irB, InodeRefs(items, inodeTree));
    }

    /**
     * `hot_inode_tree_exit`: puts every inode item once, in batches of at
     * most eight from a u64 cursor that moves past the last inode number
     * of each batch.  Inodes on their last reference are freed; the
     * others stay with fewer references.
     */
    method InodeTreeExit()
      requires Valid()
      modifies this, heatInodeMap, heatRangeMap
      ensures Valid() && (old(Counted()) ==> Counted()) && nextId == old(nextId)
      ensures Decayed(old(items), items)
      ensures inodeTree.Keys <= old(inodeTree).Keys
      ensures forall ino :: ino in inodeTree ==> inodeTree[ino] == old(inodeTree)[ino]
      ensures var ir, ir0 := InodeRefs(items, inodeTree), old(InodeRefs(items, inodeTree));
        && ir.Keys == inodeTree.Keys
        && forall ino :: ino in ir ==> ino in ir0 && ir[ino] < ir0[ino]
      ensures (forall ino :: ino in old(InodeRefs(items, inodeTree)) ==> old(InodeRefs(items, inodeTree))[ino] == 1) ==>
        inodeTree == map[]
    {
      ghost var items0, tree0 := items, inodeTree;
      ghost var ir0: map<u64, nat> := InodeRefs(items, inodeTree);
      ghost var irNow: map<u64, nat> := ir0;
      DecayedRefl(items);
      var ino: u64 := 0;
      while true
        invariant Valid() && (old(Counted()) ==> Counted()) && nextId == old(nextId)
        invariant Decayed(items0, items)
        invariant inodeTree.Keys <= tree0.Keys
        invariant forall k :: k in inodeTree ==> inodeTree[k] == tree0[k]
        invariant irNow == InodeRefs(items, inodeTree)
        invariant LoweredBelow(ir0, irNow, ino)
        decreases Total(irNow)
      {
        ghost var itemsPrev: Items, irPrev: map<u64, nat> := items, irNow;
        var more, next := InodeExitRound(ino);
        if !more {
          break;
        }
        DecayedTrans(items0, itemsPrev, items);
        irNow := InodeRefs(items, inodeTree);
        ExitRefsStep(ir0, irPrev, irNow, ino, next);
        ino := next;
      }
      InodeRefsKeys(items, inodeTree, nextId);
    }

    // -------------------------------------------------------------------
    // Recording accesses

    /**
     * The middle of one range iteration of `hot_update_freqs`: update the
     * frequency data of range `s`'s item, then drop the reference the find
     * took (`hot_range_item_put`), which is never the last one.
     */
    method TouchPut(he: ItemId, s: u32, write: bool, now: u64)
      requires Valid() && he in items && items[he].InodeItem? && s in items[he].rangeTree
      requires items[he].rangeTree[s] in items && items[items[he].rangeTree[s]].comm.refs >= 2
      modifies this, heatInodeMap, heatRangeMap
      ensures Valid() && (old(Counted()) ==> Counted()) && hotMapNr == old(hotMapNr)
      ensures heatInodeMap[..] == old(heatInodeMap[..]) && heatRangeMap[..] == old(heatRangeMap[..])
      ensures inodeTree == old(inodeTree) && nextId == old(nextId)
      ensures var hr := old(items[he].rangeTree[s]);
        items == PutRangeItems(old(items)[hr := Touched(old(items)[hr], write, now, tun)], he, s)
    {
      var hr := items[he].rangeTree[s];
      ghost var im, rm := heatInodeMap[..], heatRangeMap[..];
      var touched := Touched(items[hr], write, now, tun);
      ReweightOneOk(items, inodeTree, nextId, im, rm, hr, touched);
      items := items[hr := touched];
      RangeItemPut(he, s);
    }

    /**
     * One iteration of the range loop of `hot_update_freqs`: finds (or
     * creates) range `s` of inode `he`, applies the access to its
     * frequency data and drops the reference the find took.  It fails,
     * changing nothing, when the range is missing and cannot be created.
     */
    method TouchRange(he: ItemId, s: u32, write: bool, now: u64, alloc: Alloc) returns (ok: bool)
      requires Valid() && he in items && items[he].InodeItem?
      modifies this, heatInodeMap, heatRangeMap
      ensures Valid() && (old(Counted()) ==> Counted()) && hotMapNr == old(hotMapNr)
      ensures heatInodeMap[..] == old(heatInodeMap[..]) && heatRangeMap[..] == old(heatRangeMap[..])
      ensures inodeTree == old(inodeTree) && nextId >= old(nextId) && old(items).Keys <= items.Keys
      ensures ok <==> s in old(RangeView(items, he)) || Succeeds(alloc)
      ensures !ok ==> items == old(items) && nextId == old(nextId)
      ensures he in items && items[he].InodeItem? && items[he] == old(items[he]).(rangeTree := items[he].rangeTree)
      ensures RangeView(items, he) == if ok
        then old(RangeView(items, he))[s := RangeAfter(old(RangeView(items, he)), he, s, write, now, tun)]
        else old(RangeView(items, he))
      ensures forall id :: id in old(items) && id != he && !OwnedBy(old(items)[id], he) ==> items[id] == old(items)[id]
    {
      ghost var items0, next0 := items, nextId;
      RangeViewKeys(items, inodeTree, nextId, he);
      ghost var found := s in items[he].rangeTree;
      if found {
        RangeFacts(items, inodeTree, nextId, he, s);
      }
      var r := RangeItemFind(he, s, alloc);
      if r.Err? {
        return false;
      }
      var hr := r.value;
      TouchPut(he, s, write, now);
      ok := true;
      if found {
        TouchFoundItems(items0, he, s, write, now, tun);
        RangeViewSet(items0, inodeTree, next0, he, s, Touched(items0[hr], write, now, tun));
      } else {
        TouchAddedItems(items0, next0, he, s, write, now, tun);
        RangeViewAdd(items0, inodeTree, next0, he, s, WithRefs(Touched(NewRange(he, s, tun), write, now, tun), 1));
      }
    }

    /**
     * `hot_update_freqs` for an access of `len` bytes at `start` of inode
     * `ino`: nothing for an empty access or when the inode item cannot be
     * found or created; otherwise the inode item and every range from
     * `start >> RANGE_BITS` up to the end index (a u32, computed from a
     * u64 sum that may wrap) record the access, stopping early at the
     * first range that cannot be created.  Every reference taken is
     * dropped again; new items keep only the tree's reference.
     * `rw` is converted to `bool` as C does; `now` is the current time.
     */
    method UpdateFreqs(ino: u64, start: u64, len: u64, rw: int, now: u64,
                       inodeAlloc: Alloc, rangeAlloc: map<u32, Alloc>)
      requires Valid()
      modifies this, heatInodeMap, heatRangeMap
      ensures Valid() && (old(Counted()) ==> Counted()) && hotMapNr == old(hotMapNr)
      ensures heatInodeMap[..] == old(heatInodeMap[..]) && heatRangeMap[..] == old(heatRangeMap[..])
      ensures old(items).Keys <= items.Keys && nextId >= old(nextId)
      ensures len == 0 || (ino !in old(inodeTree) && !Succeeds(inodeAlloc)) ==>
        items == old(items) && inodeTree == old(inodeTree) && nextId == old(nextId)
      ensures len > 0 && (ino in old(inodeTree) || Succeeds(inodeAlloc)) ==>
        var v0 := old(RangesOf(items, inodeTree, ino));
        var first := FirstRange(start, tun);
        var stop := StopAt(v0, first, EndRange(start, len, tun), rangeAlloc);
        && ino in inodeTree && inodeTree == old(inodeTree)[ino := inodeTree[ino]]
        && (ino in old(inodeTree) ==> inodeTree[ino] == old(inodeTree)[ino])
        && inodeTree[ino] in items && items[inodeTree[ino]].InodeItem?
        && items[inodeTree[ino]].ino == ino
        && items[inodeTree[ino]].comm == InodeAfter(old(InodeOf(items, inodeTree, ino)), ino, rw != 0, now, tun).comm
        && RangeView(items, inodeTree[ino]) == TouchSpan(v0, inodeTree[ino], first, stop, rw != 0, now, tun)
        && forall id :: id in old(items) && id != inodeTree[ino] && !OwnedBy(old(items)[id], inodeTree[ino]) ==>
             items[id] == old(items)[id]
    {
      if len == 0 {
        return;
      }
      var write := rw != 0;
      ghost var items0, tree0, next0 := items, inodeTree, nextId;
      ghost var o := InodeOf(items, inodeTree, ino);
      ghost var v0 := RangesOf(items, inodeTree, ino);
      if ino in inodeTree {
        InoFacts(items, inodeTree, nextId, ino);
      }
      var r := InodeItemFind(ino, inodeAlloc);
      if r.Err? {
        return;
      }
      var he := r.value;
      ghost var found := items[he];
      if ino in tree0 {
        RangeViewOwner(items0, tree0, next0, he, items[he]);
      } else {
        assert RangeView(items, he) == map[];
      }
      assert RangeView(items, he) == v0;
      ghost var items1 := items;
      AccessInode(he, FirstRange(start, tun), EndRange(start, len, tun), write, now, rangeAlloc);
      InodeAfterPut(o, ino, write, now, tun, found);
      assert inodeTree[ino] == he && items[he].comm == InodeAfter(o, ino, write, now, tun).comm;
      forall id | id in items0 && id != he && !OwnedBy(items0[id], he)
        ensures items[id] == items0[id]
      {
        assert items1[id] == items0[id];
      }
    }

    /**
     * The part of `hot_update_freqs` after the inode item `he` is found,
     * holding the caller's reference: the inode's frequency data records
     * the access, the ranges from `first` below `end` are touched, and
     * the caller's reference is dropped.
     */
    method AccessInode(he: ItemId, first: u32, end: u32, write: bool, now: u64, rangeAlloc: map<u32, Alloc>)
      requires Valid() && he in items && items[he].InodeItem? && items[he].comm.refs >= 2
      modifies this, heatInodeMap, heatRangeMap
      ensures Valid() && (old(Counted()) ==> Counted()) && hotMapNr == old(hotMapNr)
      ensures heatInodeMap[..] == old(heatInodeMap[..]) && heatRangeMap[..] == old(heatRangeMap[..])
      ensures inodeTree == old(inodeTree) && nextId >= old(nextId) && old(items).Keys <= items.Keys
      ensures he in items && items[he].InodeItem? && items[he].ino == old(items[he].ino)
      ensures var it := Touched(old(items[he]), write, now, tun);
        items[he].comm == WithRefs(it, it.comm.refs - 1).comm
      ensures var v0 := old(RangeView(items, he));
        RangeView(items, he) == TouchSpan(v0, he, first, StopAt(v0, first, end, rangeAlloc), write, now, tun)
      ensures forall id :: id in old(items) && id != he && !OwnedBy(old(items)[id], he) ==> items[id] == old(items)[id]
    {
      ghost var items0 := items;
      ghost var im, rm := heatInodeMap[..], heatRangeMap[..];
      var touched := Touched(items[he], write, now, tun);
      ReweightOneOk(items, inodeTree, nextId, im, rm, he, touched);
      RangeViewOwner(items, inodeTree, nextId, he, touched);
      items := items[he := touched];
      ghost var items1 := items;
      TouchRanges(he, first, end, write, now, rangeAlloc);
      ItemFacts(items, inodeTree, nextId, he);
      RangeViewOwner(items, inodeTree, nextId, he, WithRefs(items[he], items[he].comm.refs - 1));
      InodeItemPut(he);
      forall id | id in items0 && id != he && !OwnedBy(items0[id], he)
        ensures items[id] == items0[id]
      {
        assert items1[id] == items0[id];
      }
    }

    /**
     * The range loop of `hot_update_freqs`: every range index from `first`
     * below `end` is touched in turn, until one cannot be created.
     */
    method TouchRanges(he: ItemId, first: u32, end: u32, write: bool, now: u64, rangeAlloc: map<u32, Alloc>)
      requires Valid() && he in items && items[he].InodeItem?
      modifies this, heatInodeMap, heatRangeMap
      ensures Valid() && (old(Counted()) ==> Counted()) && hotMapNr == old(hotMapNr)
      ensures heatInodeMap[..] == old(heatInodeMap[..]) && heatRangeMap[..] == old(heatRangeMap[..])
      ensures inodeTree == old(inodeTree) && nextId >= old(nextId) && old(items).Keys <= items.Keys
      ensures he in items && items[he].InodeItem? && items[he] == old(items[he]).(rangeTree := items[he].rangeTree)
      ensures var v0 := old(RangeView(items, he));
        RangeView(items, he) == TouchSpan(v0, he, first, StopAt(v0, first, end, rangeAlloc), write, now, tun)
      ensures forall id :: id in old(items) && id != he && !OwnedBy(old(items)[id], he) ==> items[id] == old(items)[id]
    {
      ghost var items1, inode1 := items, items[he];
      ghost var v0 := RangeView(items, he);
      var cur: u32 := first;
      while cur < end
        invariant first <= cur && (first <= end ==> cur <= end)
        invariant Valid() && (old(Counted()) ==> Counted()) && hotMapNr == old(hotMapNr)
        invariant heatInodeMap[..] == old(heatInodeMap[..]) && heatRangeMap[..] == old(heatRangeMap[..])
        invariant inodeTree == old(inodeTree) && nextId >= old(nextId) && items1.Keys <= items.Keys
        invariant he in items && items[he].InodeItem? && items[he] == inode1.(rangeTree := items[he].rangeTree)
        invariant RangeView(items, he) == TouchSpan(v0, he, first, cur, write, now, tun)
        invariant StopAt(v0, first, end, rangeAlloc) == StopAt(v0, cur, end, rangeAlloc)
        invariant forall id :: id in items1 && id != he && !OwnedBy(items1[id], he) ==> items[id] == items1[id]
        decreases end - cur
      {
        var ok, next := TouchRangesOne(he, first, cur, end, write, now, rangeAlloc, items1, inode1, v0);
        if !ok {
          break;
        }
        cur := next;
      }
      assert StopAt(v0, first, end, rangeAlloc) == cur;
    }

    /** One iteration of the range loop of `hot_update_freqs`: range `cur`
     *  is touched, or the loop stops there when it cannot be created. */
    method TouchRangesOne(he: ItemId, first: u32, cur: u32, end: u32, write: bool, now: u64,
                          rangeAlloc: map<u32, Alloc>, ghost items1: Items, ghost inode1: HotItem,
                          ghost v0: map<u32, HotItem>) returns (ok: bool, next: u32)
      requires Valid() && he in items && items[he].InodeItem? && inode1.InodeItem? && items[he] == inode1.(rangeTree := items[he].rangeTree)
      requires first <= cur < end && items1.Keys <= items.Keys
      requires RangeView(items, he) == TouchSpan(v0, he, first, cur, write, now, tun)
      requires StopAt(v0, first, end, rangeAlloc) == StopAt(v0, cur, end, rangeAlloc)
      requires forall id :: id in items1 && id != he && !OwnedBy(items1[id], he) ==> items[id] == items1[id]
      modifies this, heatInodeMap, heatRangeMap
      ensures Valid() && (old(Counted()) ==> Counted()) && hotMapNr == old(hotMapNr)
      ensures heatInodeMap[..] == old(heatInodeMap[..]) && heatRangeMap[..] == old(heatRangeMap[..])
      ensures inodeTree == old(inodeTree) && nextId >= old(nextId) && items1.Keys <= items.Keys
      ensures he in items && items[he].InodeItem? && items[he] == inode1.(rangeTree := items[he].rangeTree)
      ensures ok ==> next == cur + 1 && next <= end
      ensures ok ==> RangeView(items, he) == TouchSpan(v0, he, first, next, write, now, tun)
      ensures ok ==> StopAt(v0, first, end, rangeAlloc) == StopAt(v0, next, end, rangeAlloc)
      ensures !ok ==> RangeView(items, he) == TouchSpan(v0, he, first, cur, write, now, tun)
      ensures !ok ==> StopAt(v0, first, end, rangeAlloc) == cur
      ensures forall id :: id in items1 && id != he && !OwnedBy(items1[id], he) ==> items[id] == items1[id]
    {
      ghost var before := RangeView(items, he);
      ok := TouchRange(he, cur, write, now, AllocAt(rangeAlloc, cur));
      next := cur + 1;
      TouchLoopStep(v0, he, first, cur, end, write, now, tun, rangeAlloc, ok, before, RangeView(items, he));
    }
  }

  /**
   * `hot_track_init`: allocates the `struct hot_info` of a super block
   * (failing with `-ENOMEM`), with an empty inode tree and both heat maps
   * initialised, and returns 0 with the new root.
   */
  method HotTrackInit(t: Tunables, allocOk: bool) returns (ret: int, root: HotInfo?)
    requires ValidTunables(t)
    ensures !allocOk ==> ret == -ENOMEM && root == null
    ensures allocOk ==>
      && ret == 0 && root != null
      && fresh(root) && fresh(root.heatInodeMap) && fresh(root.heatRangeMap)
      && root.Valid() && root.Counted() && root.tun == t
      && root.items == map[] && root.inodeTree == map[] && root.hotMapNr == 0
      && forall b :: 0 <= b < HEAT_MAP_SIZE ==>
           root.heatInodeMap[b] == MapHead([], b) && root.heatRangeMap[b] == MapHead([], b)
  {
    if !allocOk {
      return -ENOMEM, null;
    }
    root := new HotInfo(t);
    root.HotMapArrayInit();
    ret := 0;
  }

  /**
   * `hot_track_exit`: frees both heat maps, then puts every inode item.
   * Afterwards no item is linked, every bucket is empty, and an inode
   * that held only the tree's reference is gone.
   */
  method HotTrackExit(root: HotInfo)
    requires root.Valid()
    modifies root, root.heatInodeMap, root.heatRangeMap
    ensures root.Valid() && (old(root.Counted()) ==> root.Counted() && root.hotMapNr == 0)
    ensures forall b :: 0 <= b < HEAT_MAP_SIZE ==>
      root.heatInodeMap[b] == MapHead([], b) && root.heatRangeMap[b] == MapHead([], b)
    ensures root.items.Keys <= old(root.items).Keys
    ensures forall id :: id in root.items ==> root.items[id].comm.link.None?
    ensures (forall ino :: ino in old(InodeRefs(root.items, root.inodeTree)) ==>
               old(InodeRefs(root.items, root.inodeTree))[ino] == 1) ==> root.inodeTree == map[]
  {
    root.HotMapArrayExit();
    ghost var items1 := root.items;
    InodeRefsUnlinked(old(root.items), items1, root.inodeTree);
    root.InodeTreeExit();
    forall id | id in root.items
      ensures root.items[id].comm.link.None?
    {
      DecayedAt(items1, root.items, id);
    }
    UnlinkedMapsEmpty(root.items, root.heatInodeMap[..], true);
    UnlinkedMapsEmpty(root.items, root.heatRangeMap[..], false);
  }

  /**
   * `hot_update_freqs` from the super block: without a tracking root it does
   * nothing; with one, the access is recorded as `HotInfo.UpdateFreqs` says.
   */
  method UpdateFreqsOn(root: HotInfo?, ino: u64, start: u64, len: u64, rw: int, now: u64,
                       inodeAlloc: Alloc, rangeAlloc: map<u32, Alloc>)
    requires root != null ==> root.Valid()
    modifies if root != null then {root, root.heatInodeMap, root.heatRangeMap} else {}
    ensures root != null ==> root.Valid() && (old(root.Counted()) ==> root.Counted())
    ensures root != null ==>
      && root.hotMapNr == old(root.hotMapNr)
      && root.heatInodeMap[..] == old(root.heatInodeMap[..]) && root.heatRangeMap[..] == old(root.heatRangeMap[..])
      && old(root.items).Keys <= root.items.Keys && root.nextId >= old(root.nextId)
    ensures root != null && (len == 0 || (ino !in old(root.inodeTree) && !Succeeds(inodeAlloc))) ==>
      root.items == old(root.items) && root.inodeTree == old(root.inodeTree) && root.nextId == old(root.nextId)
    ensures root != null && len > 0 && (ino in old(root.inodeTree) || Succeeds(inodeAlloc)) ==>
      var v0 := old(RangesOf(root.items, root.inodeTree, ino));
      var first := FirstRange(start, root.tun);
      var stop := StopAt(v0, first, EndRange(start, len, root.tun), rangeAlloc);
      && ino in root.inodeTree && root.inodeTree == old(root.inodeTree)[ino := root.inodeTree[ino]]
      && (ino in old(root.inodeTree) ==> root.inodeTree[ino] == old(root.inodeTree)[ino])
      && root.inodeTree[ino] in root.items && root.items[root.inodeTree[ino]].InodeItem?
      && root.items[root.inodeTree[ino]].ino == ino
      && root.items[root.inodeTree[ino]].comm
         == InodeAfter(old(InodeOf(root.items, root.inodeTree, ino)), ino, rw != 0, now, root.tun).comm
      && RangeView(root.items, root.inodeTree[ino]) == TouchSpan(v0, root.inodeTree[ino], first, stop, rw != 0, now, root.tun)
      && forall id :: id in old(root.items) && id != root.inodeTree[ino] && !OwnedBy(old(root.items)[id], root.inodeTree[ino]) ==>
           root.items[id] == old(root.items)[id]
  {
    if root != null {
      root.UpdateFreqs(ino, start, len, rw, now, inodeAlloc, rangeAlloc);
    }
  }
}
