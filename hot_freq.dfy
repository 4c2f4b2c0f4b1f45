/**
 * The arithmetic of the hot-data tracking engine: the shift-based moving
 * average of access intervals, the per-access frequency update, the raw
 * shift helper and the six-term temperature score.
 *
 * The tuning constants live in a header that is not part of this model, so
 * they are a `Tunables` parameter.  Time stamps and the current time are
 * u64 nanosecond counts; every u32/u64 wrap-around is written out.
 */
module HotFreq {
  import opened Base
  import opened HotTypes

  /** FREQ_POWER, the *_MULTIPLIER_POWER, *_DIVIDER_POWER and *_COEFF_POWER
   *  shift amounts, RANGE_BITS and the two FREQ_DATA_TYPE_* flags. */
  datatype Tunables = Tunables(
    freqPower: nat,
    nrrMultiplierPower: nat, nrwMultiplierPower: nat,
    ltrDividerPower: nat, ltwDividerPower: nat,
    avrDividerPower: nat, avwDividerPower: nat,
    nrrCoeffPower: nat, nrwCoeffPower: nat,
    ltrCoeffPower: nat, ltwCoeffPower: nat,
    avrCoeffPower: nat, avwCoeffPower: nat,
    rangeBits: nat,
    inodeFlag: u32, rangeFlag: u32)

  /** Every shift stays below the operand width, as C requires, and every
   *  `3 - *_COEFF_POWER` is a real (non-wrapped) shift amount. */
  predicate ValidTunables(t: Tunables)
  {
    && t.freqPower < 64
    && t.nrrMultiplierPower < 64 && t.nrwMultiplierPower < 64
    && t.ltrDividerPower < 64 && t.ltwDividerPower < 64
    && t.avrDividerPower < 64 && t.avwDividerPower < 64
    && t.nrrCoeffPower <= 3 && t.nrwCoeffPower <= 3
    && t.ltrCoeffPower <= 3 && t.ltwCoeffPower <= 3
    && t.avrCoeffPower <= 3 && t.avwCoeffPower <= 3
    && t.rangeBits < 32
  }

  /** RANGE_SIZE, the number of bytes one range item covers. */
  function RangeSize(t: Tunables): (r: nat)
    requires ValidTunables(t)
    ensures 1 <= r < U32
  {
    Pow2Monotone(t.rangeBits, 31);
    Pow2Widths();
    Pow2(t.rangeBits)
  }

  // ---------------------------------------------------------------------
  // Moving average

  /**
   * `timespec_to_ns(cur - old) >> k`: the signed nanosecond difference,
   * shifted arithmetically (floor division), stored into a u64.
   */
  function DeltaShift(oldTime: u64, now: u64, k: nat): (r: u64)
  {
    Sar(now - oldTime, k) % U64
  }

  /** `hot_average_update`: ((old << k) - old + delta') >> k, all in u64. */
  function AverageUpdate(oldTime: u64, now: u64, oldAvg: u64, k: nat): (r: u64)
    requires k < 64
  {
    var sum := (Shl64(oldAvg, k) - oldAvg + DeltaShift(oldTime, now, k)) % U64;
    ShrIsDiv(sum, k);
    DivShrinks(sum, Pow2(k));
    Shr(sum, k)
  }

  lemma MulMonotone(a: int, b: int, c: int)
    requires a <= b && c >= 0
    ensures a * c <= b * c
  {
  }

  /** (a*p - a + d) / p is a weighted mean of a and d. */
  lemma WeightedMeanBounds(a: nat, d: nat, p: int)
    requires p >= 1
    ensures a * p - a + d >= 0
    ensures var m := (a * p - a + d) / p;
            (d <= a ==> d <= m <= a) && (a <= d ==> a <= m <= d)
  {
    var s := a * p - a + d;
    assert s == a * (p - 1) + d;
    MulMonotone(0, a, p - 1);
    MulDivCancel(a, p);
    MulDivCancel(d, p);
    if d <= a {
      MulMonotone(d, a, p - 1);
      assert d * p == d * (p - 1) + d;
      assert a * p == a * (p - 1) + a;
      DivMonotone(d * p, s, p);
      DivMonotone(s, a * p, p);
    }
    if a <= d {
      MulMonotone(a, d, p - 1);
      assert d * p == d * (p - 1) + d;
      assert a * p == a * (p - 1) + a;
      DivMonotone(a * p, s, p);
      DivMonotone(s, d * p, p);
    }
  }

  /** Without wrap-around the update is the plain formula. */
  lemma AverageNoWrap(oldTime: u64, now: u64, oldAvg: u64, k: nat)
    requires k < 64 && oldTime <= now
    requires oldAvg * Pow2(k) < U64
    requires oldAvg * Pow2(k) - oldAvg + (now - oldTime) / Pow2(k) < U64
    ensures oldAvg * Pow2(k) - oldAvg + (now - oldTime) / Pow2(k) >= 0
    ensures AverageUpdate(oldTime, now, oldAvg, k)
         == (oldAvg * Pow2(k) - oldAvg + (now - oldTime) / Pow2(k)) / Pow2(k)
  {
    var p := Pow2(k);
    var d := (now - oldTime) / p;
    DivShrinks(now - oldTime, p);
    DivModUnique(d, U64, 0, d);
    SarIsDiv(now - oldTime, k);
    assert DeltaShift(oldTime, now, k) == d;
    var a := oldAvg * p;
    DivModUnique(a, U64, 0, a);
    Shl64IsMul(oldAvg, k);
    assert Shl64(oldAvg, k) == a;
    WeightedMeanBounds(oldAvg, d, p);
    var s := a - oldAvg + d;
    DivModUnique(s, U64, 0, s);
    ShrIsDiv(s, k);
  }

  /**
   * While nothing wraps, the new average lies between the old average and
   * the new (shifted) interval: it is a weighted mean of the two.
   */
  lemma AverageStaysBetween(oldTime: u64, now: u64, oldAvg: u64, k: nat)
    requires k < 64 && oldTime <= now
    requires oldAvg * Pow2(k) < U64
    requires oldAvg * Pow2(k) - oldAvg + (now - oldTime) / Pow2(k) < U64
    ensures var d := (now - oldTime) / Pow2(k);
            var r := AverageUpdate(oldTime, now, oldAvg, k);
            (d <= oldAvg ==> d <= r <= oldAvg) && (oldAvg <= d ==> oldAvg <= r <= d)
  {
    var p := Pow2(k);
    var d := (now - oldTime) / p;
    DivShrinks(now - oldTime, p);
    AverageNoWrap(oldTime, now, oldAvg, k);
    var r := AverageUpdate(oldTime, now, oldAvg, k);
    assert r == (oldAvg * p - oldAvg + d) / p;
    WeightedMeanBounds(oldAvg, d, p);
  }

  /** ((2^64 - 1) * p) mod 2^64 and the bound on a shifted u64. */
  lemma InitialShiftFacts(p: int, q: int, x: int)
    requires p >= 2 && q >= 1 && p * q == U64 && 0 <= x < U64
    ensures ((U64 - 1) * p) % U64 == U64 - p
    ensures x / p <= q - 1
  {
    assert (U64 - 1) * p == (p - 1) * U64 + (U64 - p);
    DivModUnique((U64 - 1) * p, U64, p - 1, U64 - p);
    DivMonotone(x, U64 - 1, p);
    assert U64 - 1 == (q - 1) * p + (p - 1);
    DivModUnique(U64 - 1, p, q - 1, p - 1);
  }

  lemma InitialSumFacts(p: int, q: int, d: int)
    requires p >= 2 && q >= 1 && p * q == U64 && 0 <= d <= q - 1
    ensures ((d + 1 - p) % U64) / p == if d < p - 1 then q - 1 else (d + 1 - p) / p
  {
    var x := d + 1 - p;
    if d < p - 1 {
      DivModUnique(x, U64, -1, x + U64);
      assert x + U64 == (q - 1) * p + (d + 1);
      DivModUnique(x + U64, p, q - 1, d + 1);
    } else {
      MulAtLeast(q, p);
      DivModUnique(x, U64, 0, x);
    }
  }

  /**
   * The first update of an average still at its initial value (u64)-1:
   * `old << k` wraps, and the result is either 2^(64-k) - 1 (short
   * interval) or roughly the interval divided by 2^(2k), not a value near
   * (u64)-1.
   */
  lemma AverageFromInitialValue(oldTime: u64, now: u64, k: nat)
    requires 1 <= k < 64 && oldTime <= now
    ensures var p := Pow2(k);
            var d := (now - oldTime) / p;
            AverageUpdate(oldTime, now, U64 - 1, k) ==
              if d < p - 1 then Pow2(64 - k) - 1 else (d + 1 - p) / p
  {
    var p := Pow2(k);
    var q := Pow2(64 - k);
    Pow2Add(k, 64 - k);
    Pow2Widths();
    Pow2Monotone(1, k);
    var d := (now - oldTime) / p;
    DivShrinks(now - oldTime, p);
    DivModUnique(d, U64, 0, d);
    SarIsDiv(now - oldTime, k);
    assert DeltaShift(oldTime, now, k) == d;
    InitialShiftFacts(p, q, now - oldTime);
    Shl64IsMul(U64 - 1, k);
    assert Shl64(U64 - 1, k) == U64 - p;
    InitialSumFacts(p, q, d);
    ShrIsDiv((d + 1 - p) % U64, k);
  }

  // ---------------------------------------------------------------------
  // Per-access update

  /** `hot_freq_data_update`: the access's counter (a u32 `+= 1`), its
   *  average and its time stamp move; nothing else does. */
  function FreqDataUpdate(f: FreqData, write: bool, now: u64, k: nat): (r: FreqData)
    requires k < 64
    ensures r.flags == f.flags && r.lastTemp == f.lastTemp
    ensures write ==>
      && r.nrWrites == (f.nrWrites + 1) % U32
      && r.lastWriteTime == now
      && r.avgDeltaWrites == AverageUpdate(f.lastWriteTime, now, f.avgDeltaWrites, k)
      && r.nrReads == f.nrReads && r.lastReadTime == f.lastReadTime
      && r.avgDeltaReads == f.avgDeltaReads
    ensures !write ==>
      && r.nrReads == (f.nrReads + 1) % U32
      && r.lastReadTime == now
      && r.avgDeltaReads == AverageUpdate(f.lastReadTime, now, f.avgDeltaReads, k)
      && r.nrWrites == f.nrWrites && r.lastWriteTime == f.lastWriteTime
      && r.avgDeltaWrites == f.avgDeltaWrites
  {
    if write then
      f.(nrWrites := (f.nrWrites + 1) % U32,
         avgDeltaWrites := AverageUpdate(f.lastWriteTime, now, f.avgDeltaWrites, k),
         lastWriteTime := now)
    else
      f.(nrReads := (f.nrReads + 1) % U32,
         avgDeltaReads := AverageUpdate(f.lastReadTime, now, f.avgDeltaReads, k),
         lastReadTime := now)
  }

  /** A read and a write touch disjoint fields, so their order does not matter. */
  lemma ReadWriteCommute(f: FreqData, tr: u64, tw: u64, k: nat)
    requires k < 64
    ensures FreqDataUpdate(FreqDataUpdate(f, false, tr, k), true, tw, k)
         == FreqDataUpdate(FreqDataUpdate(f, true, tw, k), false, tr, k)
  {
  }

  datatype Access = Access(write: bool, time: u64)

  /** The record after a sequence of accesses, oldest first. */
  function ApplyAccesses(f: FreqData, log: seq<Access>, k: nat): (r: FreqData)
    requires k < 64
    decreases |log|
  {
    if log == [] then f
    else ApplyAccesses(FreqDataUpdate(f, log[0].write, log[0].time, k), log[1..], k)
  }

  function CountOf(log: seq<Access>, write: bool): (n: nat)
    ensures n <= |log|
  {
    if log == [] then 0 else (if log[0].write == write then 1 else 0) + CountOf(log[1..], write)
  }

  lemma ModAddMod(a: int, b: int, m: int)
    requires m > 0
    ensures ((a % m) + b) % m == (a + b) % m
  {
    var q := a / m;
    assert a + b == (a % m) + b + q * m;
    var t := (a % m) + b;
    DivModUnique(a + b, m, t / m + q, t % m);
  }

  /**
   * The counters count accesses modulo 2^32: after any access sequence,
   * `nr_reads` and `nr_writes` have advanced by the number of reads and
   * writes in it (wrapping), and the flags are untouched.
   */
  lemma {:induction false} AccessesAreCounted(f: FreqData, log: seq<Access>, k: nat)
    requires k < 64
    ensures ApplyAccesses(f, log, k).nrReads == (f.nrReads + CountOf(log, false)) % U32
    ensures ApplyAccesses(f, log, k).nrWrites == (f.nrWrites + CountOf(log, true)) % U32
    ensures ApplyAccesses(f, log, k).flags == f.flags
    decreases |log|
  {
    if log != [] {
      var g := FreqDataUpdate(f, log[0].write, log[0].time, k);
      AccessesAreCounted(g, log[1..], k);
      if log[0].write {
        ModAddMod(f.nrWrites + 1, CountOf(log[1..], true), U32);
      } else {
        ModAddMod(f.nrReads + 1, CountOf(log[1..], false), U32);
      }
    }
  }

  // ---------------------------------------------------------------------
  // Raw shift

  /** `hot_raw_shift`: a u64 left shift (bits lost) or right shift. */
  function RawShift(counter: u64, bits: nat, dir: bool): (r: u64)
    requires bits < 64
  {
    if dir then
      Shl64IsMul(counter, bits);
      Shl64(counter, bits)
    else
      ShrIsDiv(counter, bits);
      DivShrinks(counter, Pow2(bits));
      Shr(counter, bits)
  }

  /** A left shift multiplies modulo 2^64; a right shift divides, rounding down. */
  lemma RawShiftValue(counter: u64, bits: nat, dir: bool)
    requires bits < 64
    ensures dir ==> RawShift(counter, bits, dir) == (counter * Pow2(bits)) % U64
    ensures !dir ==> RawShift(counter, bits, dir) == counter / Pow2(bits)
  {
    if dir {
      Shl64IsMul(counter, bits);
    } else {
      ShrIsDiv(counter, bits);
    }
  }

  /** Shifting left then right by the same amount keeps exactly the low
   *  64 - bits bits of the counter. */
  lemma ShiftLeftThenRight(counter: u64, bits: nat)
    requires bits < 64
    ensures RawShift(RawShift(counter, bits, true), bits, false) == counter % Pow2(64 - bits)
  {
    var p := Pow2(bits);
    var q := Pow2(64 - bits);
    Pow2Add(bits, 64 - bits);
    Pow2Widths();
    RawShiftValue(counter, bits, true);
    RawShiftValue(RawShift(counter, bits, true), bits, false);
    LowBitsSurvive(counter, p, q);
  }

  lemma LowBitsSurvive(c: nat, p: int, q: int)
    requires p >= 1 && q >= 1 && p * q == U64
    ensures ((c * p) % U64) / p == c % q
  {
    var lo := c % q;
    var hi := c / q;
    assert c == hi * q + lo;
    assert c * p == hi * (q * p) + lo * p;
    MulMonotone(lo, q - 1, p);
    assert (q - 1) * p == U64 - p;
    DivModUnique(c * p, U64, hi, lo * p);
    MulDivCancel(lo, p);
  }

  // ---------------------------------------------------------------------
  // Temperature

  /** A count term: `(u32)(n << mul)`, then shifted right by 3 - coeff. */
  function CountHeat(n: u32, mul: nat, coeff: nat): (r: u32)
    requires mul < 64 && coeff <= 3
  {
    var scaled := RawShift(n, mul, true) % U32;
    RawShift(scaled, 3 - coeff, false) % U32
  }

  /** `cur_time - timespec_to_ns(&last)`, computed in u64. */
  function Elapsed(last: u64, now: u64): (r: u64)
  {
    (now - last) % U64
  }

  /**
   * A recency term: 2^32 minus the shifted elapsed time, or 0 once that
   * reaches 2^32, then shifted right by 3 - coeff.  (2^32 is spelt
   * `hot_raw_shift(1, 32, true)` in the source.)
   */
  function RecencyHeat(elapsed: u64, div: nat, coeff: nat): (r: u64)
    requires div < 64 && coeff <= 3
  {
    var e := RawShift(elapsed, div, false);
    var inverted := if e >= U32 then 0 else U32 - e;
    RawShift(inverted, 3 - coeff, false)
  }

  /** An interval term: ((u64)-1 - avg) shifted, clamped to (u32)-1, then
   *  shifted right by 3 - coeff. */
  function IntervalHeat(avg: u64, div: nat, coeff: nat): (r: u64)
    requires div < 64 && coeff <= 3
  {
    var a := RawShift(U64 - 1 - avg, div, false);
    var clamped := if a >= U32 then U32 - 1 else a;
    RawShift(clamped, 3 - coeff, false)
  }

  /** `hot_temp_calc`: the u32 sum of the six terms. */
  function TempCalc(f: FreqData, now: u64, t: Tunables): (r: u32)
    requires ValidTunables(t)
  {
    (CountHeat(f.nrReads, t.nrrMultiplierPower, t.nrrCoeffPower)
     + CountHeat(f.nrWrites, t.nrwMultiplierPower, t.nrwCoeffPower)
     + RecencyHeat(Elapsed(f.lastReadTime, now), t.ltrDividerPower, t.ltrCoeffPower) % U32
     + RecencyHeat(Elapsed(f.lastWriteTime, now), t.ltwDividerPower, t.ltwCoeffPower) % U32
     + IntervalHeat(f.avgDeltaReads, t.avrDividerPower, t.avrCoeffPower) % U32
     + IntervalHeat(f.avgDeltaWrites, t.avwDividerPower, t.avwCoeffPower) % U32) % U32
  }

  /** The largest value each term can take, summed. */
  function MaxTemp(t: Tunables): (r: int)
    requires ValidTunables(t)
  {
    (U32 - 1) / Pow2(3 - t.nrrCoeffPower) + (U32 - 1) / Pow2(3 - t.nrwCoeffPower)
    + U32 / Pow2(3 - t.ltrCoeffPower) + U32 / Pow2(3 - t.ltwCoeffPower)
    + (U32 - 1) / Pow2(3 - t.avrCoeffPower) + (U32 - 1) / Pow2(3 - t.avwCoeffPower)
  }

  /** The six terms added in unbounded arithmetic, without any cast. */
  function PlainTemp(f: FreqData, now: u64, t: Tunables): (r: nat)
    requires ValidTunables(t)
  {
    CountHeat(f.nrReads, t.nrrMultiplierPower, t.nrrCoeffPower)
    + CountHeat(f.nrWrites, t.nrwMultiplierPower, t.nrwCoeffPower)
    + RecencyHeat(Elapsed(f.lastReadTime, now), t.ltrDividerPower, t.ltrCoeffPower)
    + RecencyHeat(Elapsed(f.lastWriteTime, now), t.ltwDividerPower, t.ltwCoeffPower)
    + IntervalHeat(f.avgDeltaReads, t.avrDividerPower, t.avrCoeffPower)
    + IntervalHeat(f.avgDeltaWrites, t.avwDividerPower, t.avwCoeffPower)
  }

  lemma CountHeatBound(n: u32, mul: nat, coeff: nat)
    requires mul < 64 && coeff <= 3
    ensures CountHeat(n, mul, coeff) <= (U32 - 1) / Pow2(3 - coeff)
  {
    var scaled := RawShift(n, mul, true) % U32;
    RawShiftValue(scaled, 3 - coeff, false);
    DivMonotone(scaled, U32 - 1, Pow2(3 - coeff));
    DivShrinks(scaled, Pow2(3 - coeff));
    DivModUnique(scaled / Pow2(3 - coeff), U32, 0, scaled / Pow2(3 - coeff));
  }

  lemma RecencyHeatBound(elapsed: u64, div: nat, coeff: nat)
    requires div < 64 && coeff <= 3
    ensures RecencyHeat(elapsed, div, coeff) <= U32 / Pow2(3 - coeff)
  {
    var e := RawShift(elapsed, div, false);
    var inverted := if e >= U32 then 0 else U32 - e;
    RawShiftValue(inverted, 3 - coeff, false);
    DivMonotone(inverted, U32, Pow2(3 - coeff));
  }

  lemma IntervalHeatBound(avg: u64, div: nat, coeff: nat)
    requires div < 64 && coeff <= 3
    ensures IntervalHeat(avg, div, coeff) <= (U32 - 1) / Pow2(3 - coeff)
  {
    var a := RawShift(U64 - 1 - avg, div, false);
    var clamped := if a >= U32 then U32 - 1 else a;
    RawShiftValue(clamped, 3 - coeff, false);
    DivMonotone(clamped, U32 - 1, Pow2(3 - coeff));
  }

  /**
   * A recency term is 0 once the shifted elapsed time reaches 2^32 and is
   * 2^32 >> (3 - coeff) right after an access.
   */
  lemma RecencyHeatExtremes(elapsed: u64, div: nat, coeff: nat)
    requires div < 64 && coeff <= 3
    ensures Shr(elapsed, div) >= U32 ==> RecencyHeat(elapsed, div, coeff) == 0
    ensures Shr(elapsed, div) == 0 ==> RecencyHeat(elapsed, div, coeff) == U32 / Pow2(3 - coeff)
  {
    RawShiftValue(0, 3 - coeff, false);
    RawShiftValue(U32, 3 - coeff, false);
  }

  /** The longer ago the last access, the smaller the recency term. */
  lemma RecencyHeatAntitone(e1: u64, e2: u64, div: nat, coeff: nat)
    requires div < 64 && coeff <= 3 && e1 <= e2
    ensures RecencyHeat(e2, div, coeff) <= RecencyHeat(e1, div, coeff)
  {
    DivMonotone(e1, e2, Pow2(div));
    ShrIsDiv(e1, div);
    ShrIsDiv(e2, div);
    var s1, s2 := Shr(e1, div), Shr(e2, div);
    var i1 := if s1 >= U32 then 0 else U32 - s1;
    var i2 := if s2 >= U32 then 0 else U32 - s2;
    RawShiftValue(i1, 3 - coeff, false);
    RawShiftValue(i2, 3 - coeff, false);
    DivMonotone(i2, i1, Pow2(3 - coeff));
  }

  /**
   * The comment "ltr_heat is now guaranteed to be u32 safe" does not hold
   * when the shifted elapsed time is 0: the term is exactly 2^32, and with
   * a coefficient power of 3 the later (u32) cast turns the freshest item's
   * recency credit into 0, below that of a slightly older item.
   */
  lemma RecencyHeatCastLosesFreshest(e1: u64, e2: u64, div: nat)
    requires div < 64 && Shr(e1, div) == 0 && Shr(e2, div) == 1
    ensures RecencyHeat(e1, div, 3) == U32
    ensures RecencyHeat(e1, div, 3) % U32 == 0
    ensures RecencyHeat(e2, div, 3) % U32 == U32 - 1
  {
  }

  /** The larger the average interval, the smaller the interval term. */
  lemma IntervalHeatAntitone(a1: u64, a2: u64, div: nat, coeff: nat)
    requires div < 64 && coeff <= 3 && a1 <= a2
    ensures IntervalHeat(a2, div, coeff) <= IntervalHeat(a1, div, coeff)
  {
    DivMonotone(U64 - 1 - a2, U64 - 1 - a1, Pow2(div));
    ShrIsDiv(U64 - 1 - a1, div);
    ShrIsDiv(U64 - 1 - a2, div);
    var s1, s2 := Shr(U64 - 1 - a1, div), Shr(U64 - 1 - a2, div);
    var c1 := if s1 >= U32 then U32 - 1 else s1;
    var c2 := if s2 >= U32 then U32 - 1 else s2;
    RawShiftValue(c1, 3 - coeff, false);
    RawShiftValue(c2, 3 - coeff, false);
    DivMonotone(c2, c1, Pow2(3 - coeff));
  }

  /** While `n << mul` fits in 32 bits, more accesses never lower a count term. */
  lemma CountHeatMonotone(n1: u32, n2: u32, mul: nat, coeff: nat)
    requires mul < 64 && coeff <= 3 && n1 <= n2 && n2 * Pow2(mul) < U32
    ensures CountHeat(n1, mul, coeff) <= CountHeat(n2, mul, coeff)
  {
    var p := Pow2(mul);
    var q := Pow2(3 - coeff);
    MulMonotone(n1, n2, p);
    MulMonotone(0, n1, p);
    CountHeatUnwrapped(n1, mul, coeff);
    CountHeatUnwrapped(n2, mul, coeff);
    DivMonotone(n1 * p, n2 * p, q);
  }

  lemma CountHeatUnwrapped(n: u32, mul: nat, coeff: nat)
    requires mul < 64 && coeff <= 3 && 0 <= n * Pow2(mul) < U32
    ensures CountHeat(n, mul, coeff) == (n * Pow2(mul)) / Pow2(3 - coeff)
  {
    var x := n * Pow2(mul);
    DivModUnique(x, U64, 0, x);
    RawShiftValue(n, mul, true);
    assert RawShift(n, mul, true) == x;
    DivModUnique(x, U32, 0, x);
    var y := x / Pow2(3 - coeff);
    RawShiftValue(x, 3 - coeff, false);
    DivShrinks(x, Pow2(3 - coeff));
    DivModUnique(y, U32, 0, y);
  }

  /**
   * The (u32) cast after `n << mul` drops the high bits: at
   * n = 2^(32 - mul) the count term falls from its near-maximum to 0.
   */
  lemma CountHeatWraps(mul: nat, coeff: nat)
    requires 1 <= mul <= 32 && coeff <= 3
    ensures Pow2(32 - mul) < U32
    ensures CountHeat(Pow2(32 - mul), mul, coeff) == 0
    ensures CountHeat(Pow2(32 - mul) - 1, mul, coeff) == (U32 - Pow2(mul)) / Pow2(3 - coeff)
  {
    WrapPoint(mul);
    ScaledReachesU32(Pow2(32 - mul), mul, coeff);
    ScaledBelowU32(Pow2(32 - mul), mul, coeff);
  }

  /** 2^(32 - mul) is the least count whose scaled value needs bit 32. */
  lemma WrapPoint(mul: nat)
    requires 1 <= mul <= 32
    ensures Pow2(32 - mul) * Pow2(mul) == U32 && Pow2(32 - mul) < U32
  {
    Pow2Add(32 - mul, mul);
    Pow2Widths();
    Pow2Monotone(1, mul);
    assert Pow2(1) == 2;
    ProductExceeds(Pow2(32 - mul), Pow2(mul));
  }

  lemma ProductExceeds(q: int, p: int)
    requires q >= 1 && p >= 2
    ensures q < q * p
  {
    MulAtLeast(p - 1, q);
    assert q * p == (p - 1) * q + q;
  }

  lemma ScaledReachesU32(q: u32, mul: nat, coeff: nat)
    requires mul < 64 && coeff <= 3 && q * Pow2(mul) == U32
    ensures CountHeat(q, mul, coeff) == 0
  {
    DivModUnique(U32, U64, 0, U32);
    RawShiftValue(q, mul, true);
    assert RawShift(q, mul, true) == U32;
    DivModUnique(U32, U32, 1, 0);
    RawShiftValue(0, 3 - coeff, false);
    DivModUnique(0, U32, 0, 0);
  }

  lemma ScaledBelowU32(q: u32, mul: nat, coeff: nat)
    requires mul < 64 && coeff <= 3 && q >= 1 && q * Pow2(mul) == U32
    ensures CountHeat(q - 1, mul, coeff) == (U32 - Pow2(mul)) / Pow2(3 - coeff)
  {
    MulAtLeast(q, Pow2(mul));
    MulSubOne(q, Pow2(mul));
    CountHeatUnwrapped(q - 1, mul, coeff);
  }

  lemma MulSubOne(q: int, p: int)
    ensures (q - 1) * p == q * p - p
  {
  }

  lemma DivByPow2Bounds(coeff: nat)
    requires coeff <= 3
    ensures (U32 - 1) / Pow2(3 - coeff) < U32 && U32 / Pow2(3 - coeff) <= U32
  {
    DivShrinks(U32 - 1, Pow2(3 - coeff));
    DivShrinks(U32, Pow2(3 - coeff));
  }

  /**
   * When the six largest terms cannot overflow 32 bits, the temperature is
   * the plain sum of its terms: no cast and no wrap-around loses anything.
   */
  lemma TempIsPlainSum(f: FreqData, now: u64, t: Tunables)
    requires ValidTunables(t) && MaxTemp(t) < U32
    ensures TempCalc(f, now, t) == PlainTemp(f, now, t)
  {
    PlainTempFits(f, now, t);
    SixTermsNoWrap(CountHeat(f.nrReads, t.nrrMultiplierPower, t.nrrCoeffPower),
                   CountHeat(f.nrWrites, t.nrwMultiplierPower, t.nrwCoeffPower),
                   RecencyHeat(Elapsed(f.lastReadTime, now), t.ltrDividerPower, t.ltrCoeffPower),
                   RecencyHeat(Elapsed(f.lastWriteTime, now), t.ltwDividerPower, t.ltwCoeffPower),
                   IntervalHeat(f.avgDeltaReads, t.avrDividerPower, t.avrCoeffPower),
                   IntervalHeat(f.avgDeltaWrites, t.avwDividerPower, t.avwCoeffPower));
  }

  /** Each term is at most its share of `MaxTemp`, so the plain sum fits in a u32. */
  lemma PlainTempFits(f: FreqData, now: u64, t: Tunables)
    requires ValidTunables(t) && MaxTemp(t) < U32
    ensures PlainTemp(f, now, t) < U32
  {
    CountHeatBound(f.nrReads, t.nrrMultiplierPower, t.nrrCoeffPower);
    CountHeatBound(f.nrWrites, t.nrwMultiplierPower, t.nrwCoeffPower);
    RecencyHeatBound(Elapsed(f.lastReadTime, now), t.ltrDividerPower, t.ltrCoeffPower);
    RecencyHeatBound(Elapsed(f.lastWriteTime, now), t.ltwDividerPower, t.ltwCoeffPower);
    IntervalHeatBound(f.avgDeltaReads, t.avrDividerPower, t.avrCoeffPower);
    IntervalHeatBound(f.avgDeltaWrites, t.avwDividerPower, t.avwCoeffPower);
  }

  lemma ModSmall(x: int)
    requires 0 <= x < U32
    ensures x % U32 == x
  {
    DivModUnique(x, U32, 0, x);
  }

  /** Six non-negative terms whose sum fits in a u32 lose nothing to the casts. */
  lemma SixTermsNoWrap(a: nat, b: nat, c: nat, d: nat, e: nat, g: nat)
    requires a + b + c + d + e + g < U32
    ensures (a + b + c % U32 + d % U32 + e % U32 + g % U32) % U32 == a + b + c + d + e + g
  {
    ModSmall(c);
    ModSmall(d);
    ModSmall(e);
    ModSmall(g);
    ModSmall(a + b + c + d + e + g);
  }

  /**
   * Without overflow, one more access never cools an item: the
   * temperature is monotone in `nr_reads` (write = false) and in
   * `nr_writes` (write = true).
   */
  lemma TempMonotoneInCount(f: FreqData, now: u64, t: Tunables, write: bool)
    requires ValidTunables(t) && MaxTemp(t) < U32
    requires !write ==> (f.nrReads + 1) * Pow2(t.nrrMultiplierPower) < U32
    requires write ==> (f.nrWrites + 1) * Pow2(t.nrwMultiplierPower) < U32
    ensures !write ==> f.nrReads + 1 < U32
    ensures write ==> f.nrWrites + 1 < U32
    ensures !write ==> TempCalc(f, now, t) <= TempCalc(f.(nrReads := f.nrReads + 1), now, t)
    ensures write ==> TempCalc(f, now, t) <= TempCalc(f.(nrWrites := f.nrWrites + 1), now, t)
  {
    if write {
      MulAtLeast(f.nrWrites + 1, Pow2(t.nrwMultiplierPower));
      MulMonotone(1, Pow2(t.nrwMultiplierPower), f.nrWrites + 1);
      var g := f.(nrWrites := f.nrWrites + 1);
      TempIsPlainSum(f, now, t);
      TempIsPlainSum(g, now, t);
      CountHeatMonotone(f.nrWrites, g.nrWrites, t.nrwMultiplierPower, t.nrwCoeffPower);
    } else {
      MulMonotone(1, Pow2(t.nrrMultiplierPower), f.nrReads + 1);
      var g := f.(nrReads := f.nrReads + 1);
      TempIsPlainSum(f, now, t);
      TempIsPlainSum(g, now, t);
      CountHeatMonotone(f.nrReads, g.nrReads, t.nrrMultiplierPower, t.nrrCoeffPower);
    }
  }

  /** Without overflow, a more recent read never cools an item. */
  lemma TempMonotoneInReadRecency(f: FreqData, now: u64, t: Tunables, later: u64)
    requires ValidTunables(t) && MaxTemp(t) < U32
    requires f.lastReadTime <= later <= now
    ensures TempCalc(f, now, t) <= TempCalc(f.(lastReadTime := later), now, t)
  {
    var g := f.(lastReadTime := later);
    TempIsPlainSum(f, now, t);
    TempIsPlainSum(g, now, t);
    DivModUnique(now - f.lastReadTime, U64, 0, now - f.lastReadTime);
    DivModUnique(now - later, U64, 0, now - later);
    RecencyHeatAntitone(Elapsed(later, now), Elapsed(f.lastReadTime, now),
                        t.ltrDividerPower, t.ltrCoeffPower);
  }
}
