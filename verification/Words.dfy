/** Machine words. The driver's unsigned integers are Dafny integers held inside an
    explicit range; wherever the source can wrap, the model writes the `%` out. */
module Words {

  const U32: int := 0x1_0000_0000
  const U64: int := 0x1_0000_0000_0000_0000

  type u8 = x: int | 0 <= x < 256
  type u16 = x: int | 0 <= x < 0x1_0000
  type u32 = x: int | 0 <= x < 0x1_0000_0000
  type u64 = x: int | 0 <= x < 0x1_0000_0000_0000_0000

  datatype Option<+T> = None | Some(value: T)

  function Pow2(n: nat): (p: int)
    ensures p > 0
  {
    if n == 0 then 1 else 2 * Pow2(n - 1)
  }

  lemma {:induction false} Pow2Adds(m: nat, n: nat)
    ensures Pow2(m + n) == Pow2(m) * Pow2(n)
  {
    if m > 0 {
      Pow2Adds(m - 1, n);
      assert Pow2(m + n) == 2 * Pow2(m + n - 1);
    }
  }

  lemma {:induction false} Pow2Monotone(m: nat, n: nat)
    requires m <= n
    ensures Pow2(m) <= Pow2(n)
    decreases n - m
  {
    if m < n {
      Pow2Monotone(m, n - 1);
    }
  }

  lemma Pow2Values()
    ensures Pow2(6) == 64 && Pow2(8) == 256 && Pow2(12) == 4096 && Pow2(16) == 0x1_0000
    ensures Pow2(21) == 0x20_0000 && Pow2(24) == 0x100_0000
    ensures Pow2(31) == 0x8000_0000 && Pow2(32) == U32 && Pow2(63) == 0x8000_0000_0000_0000 && Pow2(64) == U64
  {
    assert Pow2(6) == 64;
    assert Pow2(8) == 256;
    Pow2Adds(6, 6);
    Pow2Adds(8, 8);
    assert Pow2(13) == 8192;
    Pow2Adds(13, 8);
    Pow2Adds(12, 12);
    Pow2Adds(16, 16);
    Pow2Adds(24, 7);
    assert Pow2(7) == 128;
    Pow2Adds(32, 31);
    Pow2Adds(32, 32);
  }

  /** Adding a multiple of `m` leaves the remainder alone and moves the quotient. */
  lemma DivModShift(x: int, k: int, m: int)
    requires m > 0
    ensures (x + k * m) % m == x % m
    ensures (x + k * m) / m == x / m + k
  {
    DivModUnique(x + k * m, m, x / m + k, x % m);
  }

  /** Quotient and remainder are determined by their defining equation. */
  lemma DivModUnique(x: int, m: int, q: int, r: int)
    requires m > 0 && 0 <= r < m
    requires x == q * m + r
    ensures x / m == q && x % m == r
  {
    var d := x / m - q;
    assert x == (x / m) * m + x % m;
    assert d * m == r - x % m;
    assert d >= 1 ==> d * m >= m;
    assert d <= -1 ==> d * m <= -m;
  }

  lemma MulMonotone(a: int, b: int, m: int)
    requires a <= b && m >= 0
    ensures a * m <= b * m
  {
    assert (b - a) * m >= 0;
  }

  lemma DivMonotone(x: int, y: int, m: int)
    requires m > 0 && x <= y
    ensures x / m <= y / m && x / m * m <= y / m * m
  {
    var a, b := x / m, y / m;
    assert x == a * m + x % m && y == b * m + y % m;
    if a > b {
      MulMonotone(b + 1, a, m);
    }
    MulMonotone(a, if a <= b then b else a, m);
  }

  lemma RemainderBound(x: nat, m: nat)
    requires m > 0
    ensures 0 <= x % m <= x && x == x / m * m + x % m
  {
    if x < m {
      DivModUnique(x, m, 0, x);
    }
  }

  /** `x & (x - 1) == 0` for a non-zero word. */
  predicate IsPow2(x: nat)
  {
    x == 1 || (x > 0 && x % 2 == 0 && IsPow2(x / 2))
  }
}
