/**
 * The data of the hot-data tracking engine: frequency records, heat-map
 * bucket heads, the common part of inode and range items, the items
 * themselves and the scoring-policy record.
 *
 * Items are addressed by an `ItemId`, the model's stand-in for the
 * pointer the kernel hands around; a radix tree maps a key to an
 * `ItemId`, and a heat list holds `ItemId`s.
 */
module HotTypes {
  import opened Base

  const HEAT_MAP_BITS: nat := 8
  /** Buckets per heat map: one per possible u8 temperature. */
  const HEAT_MAP_SIZE: nat := 256

  const HOT_NAME_MAX: nat := 16

  lemma HeatMapSizeIsPowerOfBits()
    ensures HEAT_MAP_SIZE == Pow2(HEAT_MAP_BITS) == U8
  {
    Pow2Widths();
  }

  /**
   * `struct hot_freq_data`.  The two `struct timespec` stamps are kept as
   * u64 nanosecond counts.
   */
  datatype FreqData = FreqData(
    lastReadTime: u64,
    lastWriteTime: u64,
    nrReads: u32,
    nrWrites: u32,
    avgDeltaReads: u64,
    avgDeltaWrites: u64,
    flags: u32,
    lastTemp: u32)

  /** What a zeroing allocator leaves in a fresh frequency record. */
  const ZeroFreq: FreqData := FreqData(0, 0, 0, 0, 0, 0, 0, 0)

  type ItemId = nat

  /** `struct hot_map_head`: one bucket of a heat map. */
  datatype MapHead = MapHead(nodeList: seq<ItemId>, temp: u8)

  /**
   * `struct hot_comm_item`: frequency data, the kref count and the
   * `n_list` link, which names the heat bucket the item sits in (an empty
   * `n_list` is `None`).
   */
  datatype CommItem = CommItem(freq: FreqData, refs: nat, link: Option<u8>)

  /**
   * `struct hot_inode_item` (its range radix tree maps a u32 range index
   * to the range item) and `struct hot_range_item` (owner inode, range
   * index and length in bytes).
   */
  datatype HotItem =
    | InodeItem(comm: CommItem, rangeTree: map<u32, ItemId>, ino: u64)
    | RangeItem(comm: CommItem, owner: ItemId, start: u32, len: u32)

  /** `hot_func_name[HOT_NAME_MAX]`. */
  type HotName = s: seq<char> | |s| <= HOT_NAME_MAX

  /**
   * `struct hot_func_ops`: the average update (old stamp, current time,
   * old average), the temperature (the clock is an argument here) and the
   * obsolescence test.
   */
  datatype FuncOps = FuncOps(
    rwFreqCalc: (u64, u64, u64) -> u64,
    tempCalc: (FreqData, u64) -> u32,
    isObsolete: FreqData -> bool)

  /** `struct hot_func_type`: a named scoring policy. */
  datatype FuncType = FuncType(name: HotName, ops: FuncOps)
}
