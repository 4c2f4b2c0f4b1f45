# Hot-data tracking, the generic rbtree interface and its test harness, in Dafny

This project models four pieces of a Linux kernel tree.

1. **The hot-data tracking engine** (`fs/hot_tracking.c`, with its types in
   `include/linux/hot_tracking.h`). It covers:
   - the shift-based moving average of access intervals;
   - the per-access frequency update;
   - the six-term temperature score;
   - the two-level index of reference-counted inode and range items, with
     find-or-create, put and free, and the batched tree teardown;
   - the two arrays of 256 heat buckets and the `hot_map_nr` count;
   - the `hot_update_freqs` entry point, which maps a byte range to range
     indexes.
2. **The generic red-black tree interface** (`include/linux/rbtree.h`). It
   covers:
   - the packed parent/colour word of `struct rb_node`;
   - the relationship flags and their validity check;
   - `__rb_find`, `__rb_find_first_last`, `rb_find_next` and `rb_find_prev`;
   - `rb_insert` with its unique, replace, leftmost, rightmost and count
     options, and `rb_remove`.
3. **The bucket hash table** (`include/linux/hashtable.h`).
4. **The grbtree test harness**:
   - the container and object set-up of
     `tools/testing/selftests/grbtree/common.h`;
   - the number parsing and option processing of
     `tools/testing/selftests/grbtree/user/main.c`.

## Layout

| file | module | contents |
|---|---|---|
| `base.dfy` | `Base` | `u8`/`u32`/`u64`, `Option`/`Result`, powers of two, explicit 64-bit shifts, wrapping increments and decrements |
| `radix.dfy` | `Radix` | `radix_tree_gang_lookup` on a key set, `list_del_init` on a sequence, sums of reference counts |
| `hot_types.dfy` | `HotTypes` | the structures and constants of `hot_tracking.h` |
| `hot_freq.dfy` | `HotFreq` | `hot_average_update`, `hot_freq_data_update`, `hot_raw_shift`, `hot_temp_calc` and their properties |
| `hot_state.dfy` | `HotState` | the `struct hot_info` invariant, each state transition on values, and the specification of the range loop |
| `hot_index.dfy` | `HotTracking` | `class HotInfo`: the find, put, free, exit, heat-map and update operations, changing the state in place |
| `rb_node.dfy` | `RbNode` | `rb_parent`, `rb_color`, `rb_set_parent`, `rb_set_color`, `rb_init_node`, `rb_link_node`, on a 64-bit word |
| `rb_tree.dfy` | `RbTree` | relationships, trees and their in-order sequences, the searches, and `class Container` with `rb_insert` and `rb_remove` |
| `hashtable.dfy` | `HashTable` | `class Table` over an array of bucket lists |
| `grb_common.dfy` | `GrbCommon` | the test kinds, `struct object` and `struct container` |
| `grb_main.dfy` | `GrbMain` | the number-base prefix, the number parameters and `process_args` |

### Hot-data tracking

**Items and indexes**
- An item is addressed by an `ItemId`, which stands for the pointer the
  kernel passes around.
- `HotInfo.items` maps each allocated item to its value. A freed item leaves
  the map.
- The inode radix tree is a map from inode number to `ItemId`. Each inode
  item carries its range tree as a map from `u32` range index to `ItemId`.
- A heat bucket is a list of `ItemId`s. An item's `n_list` link is the
  bucket it is on, if any.

**The invariant `StateOk`**
- Every item holds a reference and has an id below the next fresh one.
- Every inode item is filed under its own number.
- Every range entry names a range item owned by that inode, with that index.
- Each bucket has temperature equal to its index and holds exactly the
  items of its kind linked to it.
- `Counted` states separately that `hot_map_nr` is the number of linked
  items modulo 2^32. The aging worker that would link items is not part of
  this model. The invariant is stated and proved on values in `HotState`.
  The methods of `HotInfo` follow the C code statement by statement and use
  those lemmas.

**Arithmetic**
- Every u32 and u64 wrap-around is written out: the counters' `+= 1`, the
  `old_avg << FREQ_POWER` of the first update from `(u64)-1`, the
  decrement of `hot_map_nr`, and the end index of the range loop.

**Parameters in place of the unshown header**
- The tuning constants (`FREQ_POWER`, the multiplier, divider and
  coefficient powers, `RANGE_BITS`, the `FREQ_DATA_TYPE_*` flags) live in
  `fs/hot_tracking.h`, which is not part of this model. They are a
  `Tunables` parameter.
- The clock is a `now` parameter: one reading per call of `hot_update_freqs` (see "## Left out").
- The outcome of each allocation and of `radix_tree_preload` is a
  parameter.

### rbtree

**Trees and the descent**
- A tree is a value-level binary tree of objects, each a node identity and
  an integer key. Every property is stated about the in-order sequence,
  which rebalancing keeps.
- `rb_insert`'s `struct rb_node **p` is a path from the root (the frames
  passed) plus the subtree at `*p`. `Plug` writes a subtree back at the
  bottom of the path.

**External operations, given in-order meanings**
- `rb_erase` unlinks the node and keeps the order of the rest.
- `rb_next` and `rb_prev` are the in-order neighbours.
- `rb_replace_node` puts the new node in the old one's place.
- `rb_insert_color` changes nothing in the order.

**The container**
- `Container` holds the root together with the `leftmost`, `rightmost` and
  `count` fields its relationship asks for.

## Model

| member | source | states |
|---|---|---|
| `HotTypes.HeatMapSizeIsPowerOfBits` | include/linux/hot_tracking.h:23-24 | a heat map has `1 << HEAT_MAP_BITS` = 256 buckets, one per value of a `u8` temperature |
| `HotFreq.RangeSize` | fs/hot_tracking.c:56 | `RANGE_SIZE` (`1 << RANGE_BITS`) is a positive length that fits the `u32` `len` field |
| `HotFreq.AverageNoWrap` | fs/hot_tracking.c:289-303 | when neither the shift nor the sum wraps, `hot_average_update` is `((old << k) - old + (delta >> k)) >> k` in plain arithmetic |
| `HotFreq.AverageStaysBetween` | fs/hot_tracking.c:289-303 | without wrap-around the new average lies between the old average and the new shifted interval |
| `HotFreq.AverageFromInitialValue` | fs/hot_tracking.c:289-303 | the first update from `(u64)-1` wraps in `old << k`: the result is `2^(64-k) - 1` for a short interval, else `(d + 1 - 2^k) >> k`, never near `(u64)-1` |
| `HotFreq.FreqDataUpdate` | fs/hot_tracking.c:305-324 | a write adds 1 (mod 2^32) to `nr_writes`, replaces the write average by the updated one and stamps the write time; the read fields, flags and `last_temp` are kept; reads are symmetric |
| `HotFreq.ReadWriteCommute` | fs/hot_tracking.c:305-324 | a read and a write update disjoint fields, so their order does not matter |
| `HotFreq.AccessesAreCounted` | fs/hot_tracking.c:305-324 | after any sequence of accesses the two counters have advanced by the number of reads and writes, modulo 2^32, and the flags are untouched |
| `HotFreq.RawShiftValue` | fs/hot_tracking.c:326-332 | `hot_raw_shift` multiplies by `2^bits` modulo 2^64 to the left and divides by `2^bits`, rounding down, to the right |
| `HotFreq.ShiftLeftThenRight` | fs/hot_tracking.c:326-332 | a left then a right shift by the same amount keeps exactly the low `64 - bits` bits |
| `HotFreq.CountHeatBound` | fs/hot_tracking.c:346-388 | a count term, `(u32)(n << mul) >> (3 - coeff)`, is at most `(2^32 - 1) >> (3 - coeff)` |
| `HotFreq.CountHeatWraps` | fs/hot_tracking.c:346-349 | the `(u32)` cast of `n << mul` drops bits: at `n = 2^(32-mul)` the count term falls from its near-maximum to 0 |
| `HotFreq.RecencyHeatExtremes` | fs/hot_tracking.c:365-376 | a recency term is 0 once the shifted elapsed time reaches 2^32, and is `2^32 >> (3 - coeff)` right after an access |
| `HotFreq.RecencyHeatAntitone` | fs/hot_tracking.c:351-376 | the longer ago the last access, the smaller the recency term |
| `HotFreq.RecencyHeatCastLosesFreshest` | fs/hot_tracking.c:364-396 | a recency term can be exactly 2^32, not "u32 safe": with coefficient power 3 the cast gives the freshest item 0 and a slightly older one `2^32 - 1` |
| `HotFreq.IntervalHeatAntitone` | fs/hot_tracking.c:358-383 | the longer the average interval, the smaller the interval term, which is clamped to `(u32)-1` |
| `HotFreq.IntervalHeatBound` | fs/hot_tracking.c:378-392 | an interval term is at most `(2^32 - 1) >> (3 - coeff)` |
| `HotFreq.TempIsPlainSum` | fs/hot_tracking.c:385-397 | when the six largest terms cannot overflow 32 bits, the temperature is the plain sum of the six terms |
| `HotFreq.TempMonotoneInCount` | fs/hot_tracking.c:339-397 | without overflow, one more read (write) never lowers the temperature |
| `HotFreq.TempMonotoneInReadRecency` | fs/hot_tracking.c:339-397 | without overflow, a more recent read never lowers the temperature |
| `HotState.InitFreq` | fs/hot_tracking.c:53-84 | a new item's frequency record is zero apart from both averages at `(u64)-1` and the item kind's flag |
| `HotState.NewInodeOk` | fs/hot_tracking.c:215-236 | filing a fresh inode item under a number not yet in the tree keeps the whole invariant |
| `HotState.NewRangeOk` | fs/hot_tracking.c:258-282 | filing a fresh range item under an index its inode does not have keeps the whole invariant |
| `HotState.UnlinkOk` | fs/hot_tracking.c:95-99 | taking an item off its heat list keeps the invariant and lowers the number of listed nodes by one exactly when it was linked |
| `HotState.DeleteRangeOk` | fs/hot_tracking.c:101-104 | deleting an unlinked range item on its last reference from its inode's tree keeps the invariant |
| `HotState.DeleteInodeOk` | fs/hot_tracking.c:155-158 | deleting an unlinked inode item from the inode tree keeps the invariant |
| `HotState.TouchSpanSpec` | fs/hot_tracking.c:490-505 | after the range loop over `[lo, hi)`, exactly those indexes were accessed once each, against their state before the loop; a missing one was created holding only the tree's reference; the others are unchanged |
| `HotState.StopAtSpec` | fs/hot_tracking.c:491-497 | the loop stops at the first index whose range is missing and cannot be created, or at the end; every index before it exists or can be created |
| `HotTracking.HotInfo.HotMapArrayInit` | fs/hot_tracking.c:403-412 | every bucket of both maps is an empty list with temperature equal to its index; the state is valid, and correctly counted exactly when `hot_map_nr` is 0 |
| `HotTracking.HotInfo.Unlink` | fs/hot_tracking.c:95-99 | the item leaves its heat list and `hot_map_nr` drops by one (as an unsigned int) only if it was linked; nothing else changes |
| `HotTracking.HotInfo.HotMapListFree` | fs/hot_tracking.c:414-426 | bucket `b` becomes empty, each node on it is unlinked, `hot_map_nr` drops by the list's length modulo 2^32, the other map is untouched |
| `HotTracking.HotInfo.HotMapArrayExit` | fs/hot_tracking.c:429-436 | every bucket of both maps is empty, no item is linked, `hot_map_nr` has dropped by the number of listed nodes, so a correct count is now 0 |
| `HotTracking.HotInfo.InodeItemFind` | fs/hot_tracking.c:195-237 | an existing inode is returned with one more reference and the tree unchanged; a new one is filed once with two references; on allocation or preload failure the error is returned and nothing changes |
| `HotTracking.HotInfo.RangeItemFind` | fs/hot_tracking.c:240-283 | the same for range `s` of an inode; a new range item is `RANGE_SIZE` bytes long, owned by the inode, with index `s` |
| `HotTracking.HotInfo.RangeItemPut` | fs/hot_tracking.c:86-114 | drops one reference; on the last one the range is unlinked (counting `hot_map_nr` down only if it was linked), deleted from its tree and freed |
| `HotTracking.HotInfo.RangeFreeRound` | fs/hot_tracking.c:122-136 | one gang lookup of at most eight ranges from the cursor, each put once; with none left nothing changes; else every range from the cursor up to the new cursor has lost a reference |
| `HotTracking.HotInfo.RangeTreeFree` | fs/hot_tracking.c:117-138 | every range of the inode has lost at least one reference; those on their last one are gone |
| `HotTracking.HotInfo.InodeItemPut` | fs/hot_tracking.c:140-168 | drops one reference; on the last one the inode is unlinked, all its ranges are put, and it leaves the inode tree and the heap |
| `HotTracking.HotInfo.InodeExitRound` | fs/hot_tracking.c:179-191 | one gang lookup of at most eight inodes from the u64 cursor, each put once, the cursor moving past the last one |
| `HotTracking.HotInfo.InodeTreeExit` | fs/hot_tracking.c:172-193 | every inode has lost a reference; when each held only the tree's reference, the inode tree ends empty |
| `HotTracking.HotInfo.TouchRange` | fs/hot_tracking.c:491-504 | one range iteration: range `s` is found or created and records the access, and the reference taken is dropped; if it is missing and cannot be created, nothing changes and the loop stops |
| `HotTracking.HotInfo.UpdateFreqs` | fs/hot_tracking.c:467-509 | nothing for `len == 0` or an inode that cannot be found or created; otherwise the inode records the access once and the ranges from `start >> RANGE_BITS` to the first failure or the end index are touched, as `TouchSpan` describes; references are balanced |
| `HotTracking.UpdateFreqsOn` | fs/hot_tracking.c:467-509 | a superblock without a tracking root is left alone; with one, the root stays valid and correctly counted, nothing changes for `len == 0` or an inode that cannot be found or created, and otherwise the inode records the access and the ranges are touched up to the first failure, exactly as `HotInfo.UpdateFreqs` states |
| `HotTracking.HotTrackInit` | fs/hot_tracking.c:515-534 | `-ENOMEM` without a root when allocation fails; otherwise 0 and a fresh, valid, correctly counted root with empty trees and initialised buckets |
| `HotTracking.HotTrackExit` | fs/hot_tracking.c:537-544 | afterwards every bucket is empty, no item is linked, a correct count is 0, no item was created, and when every inode held only the tree's reference the inode tree is empty |
| `RbNode.Parent` | include/linux/rbtree.h:119 | `rb_parent` clears the two low bits, so an aligned parent word reads back unchanged |
| `RbNode.Color` | include/linux/rbtree.h:120 | `rb_color` is bit 0: black exactly when it is set, red otherwise |
| `RbNode.SetParentKeepsColor` | include/linux/rbtree.h:119-129 | `rb_set_parent` with an aligned parent reads back as that parent and keeps the colour and bit 1 |
| `RbNode.SetColorReadsBack` | include/linux/rbtree.h:120-133 | `rb_set_color` with 0 or 1 reads back as that colour |
| `RbNode.SetColorKeepsParent` | include/linux/rbtree.h:119-133 | `rb_set_color` keeps the parent bits |
| `RbNode.Node.Init` | include/linux/rbtree.h:138-148 | after `rb_init_node` both children are NULL and the node is its own parent (`RB_EMPTY_NODE`), red |
| `RbNode.Node.Link` | include/linux/rbtree.h:172-180 | `rb_link_node` makes the word the parent pointer (a red node) and clears both children |
| `RbTree.GoodRelFlags` | include/linux/rbtree.h:433-464 | a relationship's flag word passes `__rb_assert_good_rel` exactly when replacing implies unique keys |
| `RbTree.GoodRelRefusesUnknown` | include/linux/rbtree.h:437 | a flag outside `RB_ALL_FLAGS` is refused |
| `RbTree.DecodeFlags` | include/linux/rbtree.h:247-281 | the flag word and the relationship's fields correspond one to one |
| `RbTree.Find` | include/linux/rbtree.h:474-493 | `__rb_find` returns a node of the tree whose key equals the search key, and NULL exactly when no node has that key |
| `RbTree.FirstLastAsWrittenMisses` | include/linux/rbtree.h:510-541 | the code as written returns NULL for a present key (see Findings) |
| `RbTree.FindFirstLast` | include/linux/rbtree.h:510-541 | corrected: returns the first (or last) node in order with an equal key, and NULL exactly when there is none |
| `RbTree.FindNextWalksRun` | include/linux/rbtree.h:592-604 | `rb_find_next` yields the next node in order exactly when it has the same key; once it yields NULL no later node has that key |
| `RbTree.FindPrevWalksRun` | include/linux/rbtree.h:615-627 | the mirror image for `rb_find_prev` |
| `RbTree.Container.InsertDescend` | include/linux/rbtree.h:852-911 | the descent loop ends at the path `Descend` defines, with `leftmost`/`rightmost` true exactly when it never turned right/left |
| `RbTree.Container.InsertEpilogue` | include/linux/rbtree.h:795-826 | with unique keys and a match, replace the node (count kept) or change nothing; otherwise link the node at the hole and count it; return the match |
| `RbTree.Container.Insert` | include/linux/rbtree.h:846-926 | a match is returned only with unique keys and has the new key; without a match the node lands after every smaller key, the count goes up by one, and leftmost/rightmost become the node exactly when it is first/last; with a match and no replacing nothing changes, with replacing the match's position holds the new node; the order stays sorted and duplicate-free; end pointers and count stay right whenever the node was linked or replaced a match |
| `RbTree.LinkPosition` | include/linux/rbtree.h:899-911 | linking puts the node after the keys below it (equal keys go left in a non-unique tree) and keeps everything else in order |
| `RbTree.LinkNoKey` | include/linux/rbtree.h:901-910 | with unique keys the descent ends at a NULL only when the key is absent |
| `RbTree.LinkEnds` | include/linux/rbtree.h:901-924 | the descent never turned right (left) exactly when the new node is first (last) |
| `RbTree.ReplacePosition` | include/linux/rbtree.h:804-809 | replacing puts the new node exactly in the matched node's position |
| `RbTree.EraseOutcome` | include/linux/rbtree.h:1029 | `rb_erase` deletes one position and keeps order; the new first (last) node is the successor (predecessor) if the removed node was first (last) |
| `RbTree.Container.Remove` | include/linux/rbtree.h:1002-1033 | the node leaves the order; leftmost moves to its successor and rightmost to its predecessor if they pointed at it; count drops by one (mod 2^64); end pointers and count stay right |
| `RbTree.RejectedDuplicateSetsEnds` | include/linux/rbtree.h:913-924 | a rejected duplicate in a one-node unique tree without replacing has a descent with no turns, so the code sets `leftmost` and `rightmost` to a node that is not in the tree |
| `HashTable.HashSize` | include/linux/hashtable.h:18 | `HASH_SIZE(bits)` is `2^bits` |
| `HashTable.Table.InitSize` | include/linux/hashtable.h:32-38 | every bucket in `[0, 2^bits)` is empty and no node is hashed |
| `HashTable.Table.AddSize` | include/linux/hashtable.h:56-57 | the node is put at the head of the chosen bucket; every other bucket is unchanged |
| `HashTable.Table.Del` | include/linux/hashtable.h:119-122 | the node leaves every bucket and is no longer hashed; other nodes stay hashed or unhashed as before |
| `HashTable.Table.EmptySize` | include/linux/hashtable.h:98-107 | true exactly when every bucket is empty, which is exactly when no node is hashed |
| `HashTable.Table.ForEachSize` | include/linux/hashtable.h:142-144 | visits the bucket lists in bucket order, each from its head |
| `HashTable.WalkAscending` | include/linux/hashtable.h:142-144 | the buckets are visited in ascending index order, all below `2^bits` |
| `HashTable.WalkMembers` | include/linux/hashtable.h:142-144 | a (bucket, node) pair is visited exactly when that node is on that bucket |
| `GrbCommon.TypeRoundTrip` | tools/testing/selftests/grbtree/common.h:169-174 | the three test kinds correspond one to one to the numbers below `GRBTEST_TYPE_COUNT` = 3 |
| `GrbCommon.TypeOf` | tools/testing/selftests/grbtree/common.h:169-174 | a number names a test kind exactly when it is below 3 |
| `GrbCommon.Object.InitObject` | tools/testing/selftests/grbtree/common.h:218-227 | the key is set, both children are NULL, and `is_inserted` is false |
| `GrbCommon.TestContainer.InitContainer` | tools/testing/selftests/grbtree/common.h:210-216 | empty root, zero count, no leftmost or rightmost, `pool_in_use` untouched; a valid tree whose optional fields are right |
| `GrbMain.GetParamBaseAndStart` | tools/testing/selftests/grbtree/user/main.c:149-166 | `0x`/`0X` gives base 16 and skips 2; another `0` not alone gives base 8 and skips 1; anything else, `"0"` included, gives base 10 and skips nothing |
| `GrbMain.GetU64Param` | tools/testing/selftests/grbtree/user/main.c:194-206 | stores the `strtoull` value and exits unless the whole rest of the string was digits of the base |
| `GrbMain.GetUintParam` | tools/testing/selftests/grbtree/user/main.c:174-187 | the same, with the `unsigned long` result truncated to 32 bits |
| `GrbMain.DecimalRoundTrip` | tools/testing/selftests/grbtree/user/main.c:174-206 | a number written in decimal is read back cleanly (saturated to 64 bits, truncated to 32 for `unsigned int`) |
| `GrbMain.HexRoundTrip` | tools/testing/selftests/grbtree/user/main.c:143-166 | `0x` or `0X` followed by the hexadecimal digits of n, as `Digits` writes them (lower case), is read back cleanly; upper-case digits are accepted as `CleanIffDigits` states |
| `GrbMain.OctalRoundTrip` | tools/testing/selftests/grbtree/user/main.c:143-161 | `0` followed by octal digits is read back cleanly |
| `GrbMain.CleanIffDigits` | tools/testing/selftests/grbtree/user/main.c:174-206 | a parameter is accepted exactly when every character after the prefix is a digit of the chosen base |
| `GrbMain.NoArguments` | tools/testing/selftests/grbtree/user/main.c:266-277 | with no options every field keeps its default (test 0, key mask 0xff, count 0x100, one pool, one repetition, `","`, `"'"`, flags 0) and the call returns 0 |
| `GrbMain.ProcessSucceeds` | tools/testing/selftests/grbtree/user/main.c:300-331 | `process_args` returns 0 exactly when no option ended it, no argument is left over, and the test number is below `GRBTEST_TYPE_COUNT` |
| `GrbMain.UnknownOption` | tools/testing/selftests/grbtree/user/main.c:317 | an option letter other than the eleven listed ends the call with -1 |
| `GrbMain.BadNumberExits` | tools/testing/selftests/grbtree/user/main.c:303-310 | a number option with trailing characters exits with status 1 |
| `GrbMain.RunStops` | tools/testing/selftests/grbtree/user/main.c:300-318 | the option loop either runs to the end or stops with `exit(1)` or a return of -1, nothing else |
| `GrbMain.RunAppend` | tools/testing/selftests/grbtree/user/main.c:279-319 | the options before the first that ends the call are applied one after another |
| `GrbMain.Config.ApplyOption` | tools/testing/selftests/grbtree/user/main.c:303-318 | the `switch` for one option changes the configuration as `Step` says and reports whether the call ends there |
| `GrbMain.Config.ProcessArgs` | tools/testing/selftests/grbtree/user/main.c:262-332 | sets the defaults, applies the options, rejects leftovers and bad test numbers: the final configuration and outcome are `Process` |

## Left out

- Locking and concurrency are left out: spinlocks, kref atomicity, `radix_tree_preload_end`, and the `-EEXIST` retry of the find functions. The retry only matters when two callers race, and the model is sequential.
- `kmem_cache_*`, `kzalloc`, `kfree` and `hot_cache_init` are allocators. Only the outcome of an allocation (success, `-ENOMEM`, or a preload error) is modelled, as a parameter.
- `HotTracking.HotInfo.UpdateFreqs`: one `now` stands for every `current_kernel_time()` call that `hot_freq_data_update` makes (fs/hot_tracking.c:307) within one `hot_update_freqs`: once for the inode (line 485) and once per range (line 502). In the kernel each of those reads the clock anew, so later ranges may get a later stamp and interval; the model gives them all the same reading. The same holds for `AccessInode`, `TouchRanges`, `TouchRange` and `HotTracking.UpdateFreqsOn`.
- `current_kernel_time`, `timespec_sub` and `timespec_to_ns` are external. Time stamps and the current time are u64 nanosecond counts passed in. `DeltaShift` takes the signed difference and shifts it arithmetically.
- The tuning constants of `fs/hot_tracking.h` are not shown, so they are parameters. Their preconditions (`ValidTunables`) keep every shift below the operand width and every `*_COEFF_POWER` at most 3.
- The aging worker, the obsolescence check, the shrinker, `hot_func_register` and `hot_func_unregister` are only declared in `hot_tracking.h`. No behaviour is invented for them. For that reason `Counted` is kept separate from `Valid`.
- `hot_inode_tree_init` and `hot_range_tree_init` set a radix root to empty. That is the empty map of a new `HotInfo` and of a new inode item.
- `HotState.TouchSpanSpec` leaves out the order in which the range loop touches indexes. The specification gives only the outcome of each index. The loop method does go through them in ascending order.
- `RbTree.FindFirstLast`: the code as written is `RbTree.FirstLastAsWritten` (see Findings). The key register hack at include/linux/rbtree.h:864-875 is code generation only, and so are the `RB_DEFINE_INTERFACE` wrappers and the `IFF_EMPTY`/`OPT_OFFSETOF` macros.
- `RbTree.Container.Insert`: modelled as written at include/linux/rbtree.h:913-924. With unique keys and without `RB_INSERT_REPLACES`, a rejected duplicate met on a path that never turns right (or left) still becomes `leftmost` (or `rightmost`), as `RbTree.RejectedDuplicateSetsEnds` exhibits. So the container's end-pointer invariant `Tracked` is promised after an insert only when the node was linked or replaced an equal one. This goes against `rb_insert`'s own comment at include/linux/rbtree.h:838-841, which says that without `RB_INSERT_REPLACES` no change is made; the code is followed.
- Colour rebalancing (`rb_insert_color`), `rb_erase`'s restructuring and augmentation (`rb_augment_*`, `RB_IS_AUGMENTED`) are external. Each is modelled by one concrete operation that keeps the in-order sequence as the kernel's does: `rb_insert_color` leaves the linked tree as it is, and `rb_erase` is one particular order-keeping deletion (`RbTree.Erase`). The tree's shape after either is not the kernel's, so shape-dependent outcomes after a sequence of operations (such as which descents turn, which `RbTree.RejectedDuplicateSetsEnds` relies on) describe the model's tree, not the kernel's. Red-black balance is not modelled.
- `__rb_find_subtree`, `rb_find_near` and `rb_insert_near` climb parent pointers, so they are not part of this model. The tree is a value without parent pointers.
- The page-cache example at the top of rbtree.h, and `rb_first`/`rb_last`, are not part of this model.
- The root, leftmost, rightmost and count offset checks in `__rb_assert_good_rel` are compile-time layout checks. So is the way they check each offset against the other flags' presence. Only the flag checks are modelled.
- `RbTree.Container`: the count is an `unsigned long`, modelled as 64 bits. common.h's container declares it `unsigned int`, but the interface reaches it through the relationship's offset, so 64 bits are used.
- The compare functions are the three-way comparison of integer keys. Keys of other widths and user compare functions are not part of this model.
- `hash_min`, `hash_32` and `hash_long` are not shown. `HashTable.Table.AddSize` takes the bucket index the hash would give as a parameter.
- `hash_hashed` reads the node's `pprev`. `HashTable.Table.Hashed` states it as membership of some bucket. The two agree for nodes handled only by these operations.
- `hash_add`, `hash_init`, `hash_empty`, `hash_for_each` and the RCU and `_possible` variants are the same macros with the size taken from the array. They are not modelled separately.
- `strtoul` and `strtoull` are modelled on strings without leading blanks, sign or a second `0x` prefix, which they would also accept. A value too large saturates to `ULONG_MAX`.
- `getopt_long` is not part of this model. Its result arrives as a list of (letter, argument) pairs plus the number of arguments left over.
- `show_usage`, the `fprintf` messages, `print_human_*`, `main` and the disabled `run_test`/`dumpTree` block are output only.
- `strdup` and `free` of the delimiter and quote strings are modelled as storing the argument string.
- `grbtest_config`'s seed fields other than `in_seed`, and `object_pools`, are not used by the modelled code.
- facilities.c, the user-space `kernel.h` overrides, percpu-rwsem.h and bug.h are not part of this model.

### Where the source's comments and its code disagree (the code is followed)
- `rb_insert`'s comment (include/linux/rbtree.h:838-841) says a rejected duplicate changes nothing. Lines 913-924 can still point `leftmost`/`rightmost` at it, as recorded for `RbTree.Container.Insert` above.
- The comments at fs/hot_tracking.c:365 and 371 call the recency terms "u32 safe". Right after an access such a term is exactly 2^32, which the `(u32)` cast in the sum turns into 0, as `HotFreq.RecencyHeatCastLosesFreshest` states.

### Wrap-around in the code
- The counters' `+= 1` on a `u32` wraps, as `HotFreq.AccessesAreCounted` states.
- The first average update from `(u64)-1` wraps in `old_avg << FREQ_POWER`, as `HotFreq.AverageFromInitialValue` states.
- `hot_map_nr` is decremented as an `unsigned int` and wraps below 0. `Counted` is what keeps it equal to the number of linked items.
- A range is stored at index `cur` as a `u32`. The end index is computed from a u64 sum that may wrap and is then truncated to 32 bits (`HotState.EndRange`).

## Findings

| source | as written | input that shows it | evidently intended | confidence | as-written member | corrected member |
|---|---|---|---|---|---|---|
| include/linux/rbtree.h:523-538 | at an equal key `__rb_find_first_last` moves to the left child (find first) or right child (find last) without remembering the equal node | a tree with root key 5 and a left child with key 3; `rb_find_first(5)` goes to 3, then right to NULL, and returns NULL although 5 is present | remember the equal node and return it when the descent runs out | not executed | `RbTree.FirstLastAsWritten`, `RbTree.FirstLastAsWrittenMisses` | `RbTree.FindFirstLast` |
