/** The fixed-width values that the C and C++ sources compute with. */
module Machine {
  type byte = x: int | 0 <= x < 0x100
  type u16 = x: int | 0 <= x < 0x1_0000
  type u32 = x: int | 0 <= x < 0x1_0000_0000
  type u64 = x: int | 0 <= x < 0x1_0000_0000_0000_0000

  const POW32: int := 0x1_0000_0000
  const POW64: int := 0x1_0000_0000_0000_0000

  /** Unsigned 32 bit subtraction, as the sources use it for "is `a` among the `n` values from `b` on". */
  function Sub32(a: int, b: int): (r: u32) {
    (a - b) % POW32
  }

  lemma Sub32InRange(a: int, b: int, n: int)
    requires 0 <= a < POW32 && 0 <= b && 0 <= n && b + n < POW32
    ensures Sub32(a, b) < n <==> b <= a < b + n
    ensures Sub32(a, b) < n ==> Sub32(a, b) == a - b
  {
  }

  /** Quotient and remainder are determined by the division equation. */
  lemma QuotRem(x: int, d: int, q: int, r: int)
    requires d > 0 && x == d * q + r && 0 <= r < d
    ensures x / d == q && x % d == r
  {
    DivisionIsUnique(d, x / d, x % d, q, r);
  }

  lemma DivisionIsUnique(d: int, q: int, r: int, q': int, r': int)
    requires d * q + r == d * q' + r' && 0 <= r < d && 0 <= r' < d
    ensures q == q' && r == r'
  {
    if q < q' {
      Distance(d, q, q');
    } else if q' < q {
      Distance(d, q', q);
    }
  }

  lemma Distance(d: int, a: int, b: int)
    requires 0 < d && a < b
    ensures d * a + d <= d * b
  {
    assert d * b == d * a + d + d * (b - a - 1);
  }

  /** Quotient by a positive number that is not a constant, by repeated subtraction. */
  function Quot(x: nat, d: nat): nat
    requires d > 0
  {
    if x < d then 0 else 1 + Quot(x - d, d)
  }

  /** The remainder that belongs to `Quot`. */
  function Rem(x: nat, d: nat): (r: nat)
    requires d > 0
    ensures r < d
  {
    if x < d then x else Rem(x - d, d)
  }

  /** The largest multiple of `d` that is at most `x`; for a power of two the sources mask the low bits. */
  function RoundDown(x: nat, d: nat): int
    requires d > 0
  {
    Quot(x, d) * d
  }

  lemma {:induction false} QuotLaw(x: nat, d: nat)
    requires d > 0
    ensures x == d * Quot(x, d) + Rem(x, d)
  {
    if x >= d {
      QuotLaw(x - d, d);
      assert d * Quot(x, d) == d * Quot(x - d, d) + d;
    }
  }

  /** They are the ordinary quotient and remainder, and determined by the division equation. */
  lemma QuotIs(x: nat, d: nat, q: int, r: int)
    requires d > 0 && x == d * q + r && 0 <= r < d
    ensures Quot(x, d) == q == x / d && Rem(x, d) == r == x % d
  {
    QuotLaw(x, d);
    DivisionIsUnique(d, Quot(x, d), Rem(x, d), q, r);
    QuotRem(x, d, q, r);
  }
}
