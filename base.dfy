/**
 * Machine integer widths, powers of two, shifts and the small division
 * facts the rest of the model leans on.  C's unsigned types are modelled
 * as subset types of int; every wrap-around is written out with `%`.
 */
module Base {

  const U8: int := 0x100
  const U32: int := 0x1_0000_0000
  const U64: int := 0x1_0000_0000_0000_0000

  type u8 = x: int | 0 <= x < 0x100
  type u32 = x: int | 0 <= x < 0x1_0000_0000
  type u64 = x: int | 0 <= x < 0x1_0000_0000_0000_0000

  /** The kernel's ENOMEM error number; errors are returned negated. */
  const ENOMEM: int := 12

  datatype Option<T> = None | Some(value: T)

  /** A pointer-or-error result: `Err(e)` carries the negative errno. */
  datatype Result<T> = Ok(value: T) | Err(errno: int)

  function Pow2(n: nat): (r: nat)
    ensures r >= 1
  {
    if n == 0 then 1 else 2 * Pow2(n - 1)
  }

  lemma {:induction false} Pow2Add(a: nat, b: nat)
    ensures Pow2(a + b) == Pow2(a) * Pow2(b)
    decreases a
  {
    if a > 0 {
      Pow2Add(a - 1, b);
      assert Pow2(a + b) == 2 * Pow2(a - 1 + b);
    }
  }

  lemma {:induction false} Pow2Monotone(a: nat, b: nat)
    requires a <= b
    ensures Pow2(a) <= Pow2(b)
    decreases b
  {
    if a < b {
      Pow2Monotone(a, b - 1);
    }
  }

  lemma Pow2Widths()
    ensures Pow2(8) == U8 && Pow2(32) == U32 && Pow2(64) == U64
  {
    assert Pow2(4) == 16;
    Pow2Add(4, 4);
    Pow2Add(8, 8);
    Pow2Add(16, 16);
    Pow2Add(32, 32);
  }

  /** `x << n` on a u64: each doubling loses the bit shifted out. */
  function Shl64(x: u64, n: nat): (r: u64)
  {
    if n == 0 then x else (2 * Shl64(x, n - 1)) % U64
  }

  /** `x >> n` on an unsigned value: each halving drops the lowest bit. */
  function Shr(x: nat, n: nat): (r: nat)
  {
    if n == 0 then x else Shr(x, n - 1) / 2
  }

  /** `x >> n` on a signed value: an arithmetic shift, rounding down. */
  function Sar(x: int, n: nat): (r: int)
  {
    if n == 0 then x else Sar(x, n - 1) / 2
  }

  lemma {:induction false} Shl64IsMul(x: u64, n: nat)
    ensures Shl64(x, n) == (x * Pow2(n)) % U64
  {
    if n > 0 {
      Shl64IsMul(x, n - 1);
      var y := x * Pow2(n - 1);
      ModDouble(y, U64);
      assert 2 * y == x * Pow2(n);
    } else {
      DivModUnique(x, U64, 0, x);
    }
  }

  lemma {:induction false} ShrIsDiv(x: nat, n: nat)
    ensures Shr(x, n) == x / Pow2(n)
  {
    if n > 0 {
      ShrIsDiv(x, n - 1);
      DivHalf(x, Pow2(n - 1));
    }
  }

  lemma {:induction false} SarIsDiv(x: int, n: nat)
    ensures Sar(x, n) == x / Pow2(n)
  {
    if n > 0 {
      SarIsDiv(x, n - 1);
      DivHalf(x, Pow2(n - 1));
    }
  }

  /** Halving a quotient is dividing by twice the divisor. */
  lemma DivHalf(x: int, a: int)
    requires a > 0
    ensures (x / a) / 2 == x / (2 * a)
  {
    var q, r := x / a, x % a;
    var q2, r2 := q / 2, q % 2;
    MulSplit(a, q2, r2);
    var rem := a * r2 + r;
    assert rem == if r2 == 0 then r else a + r;
    DivModUnique(x, 2 * a, q2, rem);
  }

  lemma MulSplit(a: int, q2: int, r2: int)
    ensures a * (2 * q2 + r2) == (2 * a) * q2 + a * r2
  {
  }

  /** Doubling commutes with reduction modulo `m`. */
  lemma ModDouble(y: int, m: int)
    requires m > 0
    ensures (2 * (y % m)) % m == (2 * y) % m
  {
    var z := 2 * (y % m);
    var k := y / m;
    assert 2 * y == z + (2 * k) * m;
    DivModUnique(2 * y, m, z / m + 2 * k, z % m);
  }

  lemma DivShrinks(x: nat, m: int)
    requires m >= 1
    ensures 0 <= x / m <= x
  {
    DivUpper(x, m);
  }

  lemma DivUpper(x: nat, m: int)
    requires m >= 1
    ensures (x / m) * m <= x
  {
  }

  /** Division with a positive divisor is the unique quotient. */
  lemma DivModUnique(x: int, m: int, q: int, r: int)
    requires m > 0 && 0 <= r < m && x == q * m + r
    ensures x / m == q && x % m == r
  {
    var q' := x / m;
    var r' := x % m;
    assert x == q' * m + r';
    assert (q - q') * m == r' - r;
    if q > q' {
      MulAtLeast(q - q', m);
    } else if q < q' {
      MulAtLeast(q' - q, m);
    }
  }

  lemma MulAtLeast(a: int, m: int)
    requires a >= 1 && m >= 0
    ensures a * m >= m
  {
    assert a * m == (a - 1) * m + m;
  }

  lemma DivMonotone(a: int, b: int, m: int)
    requires m > 0 && a <= b
    ensures a / m <= b / m
  {
    var qa, qb := a / m, b / m;
    if qa > qb {
      MulAtLeast(qa - qb, m);
    }
  }

  lemma MulDivCancel(a: int, m: int)
    requires m > 0
    ensures (a * m) / m == a && (a * m) % m == 0
  {
    DivModUnique(a * m, m, a, 0);
  }

  /** Adding one divisor's worth moves the quotient up by one. */
  lemma DivAddOne(a: int, m: int)
    requires m > 0
    ensures (a + m) / m == a / m + 1
  {
    DivModUnique(a + m, m, a / m + 1, a % m);
  }

  lemma IncMod(x: int, m: int)
    requires 0 <= x < m
    ensures (x + 1) % m == if x + 1 < m then x + 1 else 0
  {
    if x + 1 < m {
      DivModUnique(x + 1, m, 0, x + 1);
    } else {
      DivModUnique(x + 1, m, 1, 0);
    }
  }

  /** `x + 1` on a u32: 2^32 - 1 wraps to 0. */
  function Inc32(x: u32): (r: u32)
    ensures r == if x + 1 < U32 then x + 1 else 0
  {
    IncMod(x, U32);
    (x + 1) % U32
  }

  /** `x + 1` on a u64: 2^64 - 1 wraps to 0. */
  function Inc64(x: u64): (r: u64)
    ensures r == if x + 1 < U64 then x + 1 else 0
  {
    IncMod(x, U64);
    (x + 1) % U64
  }

  /** `x - 1` on a u64: 0 wraps to 2^64 - 1. */
  function Dec64(x: u64): (r: u64)
    ensures r == if x > 0 then x - 1 else U64 - 1
  {
    DecMod(x, U64);
    (x - 1) % U64
  }

  lemma DecMod(x: int, m: int)
    requires 0 <= x < m
    ensures (x - 1) % m == if x > 0 then x - 1 else m - 1
  {
    if x > 0 {
      DivModUnique(x - 1, m, 0, x - 1);
    } else {
      DivModUnique(x - 1, m, -1, m - 1);
    }
  }
}
