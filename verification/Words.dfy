/** Go's unsigned machine integers: explicit wrap-around, shifts, and the checked arithmetic of
    the safemath package. */
module Words {
  import opened Common

  const TWO_TO_THE_16: int := 0x1_0000
  const TWO_TO_THE_32: int := 0x1_0000_0000
  const TWO_TO_THE_64: int := 0x1_0000_0000_0000_0000

  type uint16 = x: int | 0 <= x < TWO_TO_THE_16
  type uint32 = x: int | 0 <= x < TWO_TO_THE_32
  type uint64 = x: int | 0 <= x < TWO_TO_THE_64

  function Pow2(n: nat): (p: nat)
    ensures p >= 1
  {
    if n == 0 then 1 else 2 * Pow2(n - 1)
  }

  /** The number of bits needed to represent `x` (bits.Len). */
  function BitLen(x: nat): nat {
    if x == 0 then 0 else 1 + BitLen(x / 2)
  }

  lemma {:induction false} BitLenBounds(x: nat)
    ensures x < Pow2(BitLen(x))
    ensures x > 0 ==> BitLen(x) > 0 && Pow2(BitLen(x) - 1) <= x
  {
    if x > 1 {
      BitLenBounds(x / 2);
    }
  }

  lemma {:induction false} Pow2Monotone(a: nat, b: nat)
    requires a <= b
    ensures Pow2(a) <= Pow2(b)
    decreases b
  {
    if a < b {
      Pow2Monotone(a, b - 1);
    }
  }

  lemma {:induction false} Pow2Add(a: nat, b: nat)
    ensures Pow2(a + b) == Pow2(a) * Pow2(b)
  {
    if a > 0 {
      Pow2Add(a - 1, b);
      assert Pow2(a + b) == 2 * Pow2(a - 1 + b);
    }
  }

  lemma Pow2At32()
    ensures Pow2(32) == TWO_TO_THE_32
  {
    Pow2Add(16, 16);
    Pow2Add(8, 8);
    assert Pow2(8) == 256;
  }

  lemma Pow2At64()
    ensures Pow2(64) == TWO_TO_THE_64
  {
    Pow2Add(32, 32);
    Pow2At32();
  }

  lemma Pow2Complement32(n: nat)
    requires n <= 32
    ensures Pow2(n) * Pow2(32 - n) == TWO_TO_THE_32
  {
    Pow2Add(n, 32 - n);
    Pow2At32();
  }

  lemma Pow2Complement64(n: nat)
    requires n <= 64
    ensures Pow2(64 - n) * Pow2(n) == TWO_TO_THE_64
  {
    Pow2Add(64 - n, n);
    Pow2At64();
  }

  // ---------- Wrap-around and checked arithmetic ----------

  function Add64(x: uint64, y: uint64): uint64 {
    (x + y) % TWO_TO_THE_64
  }

  function Sub64(x: uint64, y: uint64): uint64 {
    (x - y) % TWO_TO_THE_64
  }

  function Mul64(x: uint64, y: uint64): uint64 {
    (x * y) % TWO_TO_THE_64
  }

  /** `x << n`; shifting by 64 or more gives 0. */
  function Shl64(x: uint64, n: nat): uint64 {
    (x * Pow2(n)) % TWO_TO_THE_64
  }

  /** `x >> n`; shifting by 64 or more gives 0. */
  function Shr64(x: uint64, n: nat): (r: uint64)
    ensures r <= x
  {
    DivBounds(x, Pow2(n));
    x / Pow2(n)
  }

  function SafeAdd64(x: uint64, y: uint64): Option<uint64> {
    if x + y < TWO_TO_THE_64 then Some(x + y) else None
  }

  function SafeSub64(x: uint64, y: uint64): Option<uint64> {
    if x >= y then Some(x - y) else None
  }

  // ---------- Division ----------

  lemma DivBounds(x: nat, d: int)
    requires d >= 1
    ensures 0 <= x / d <= x
    ensures x / d * d <= x < x / d * d + d
  {
    assert x == x / d * d + x % d;
    if x / d > x {
      MulMonotone(x + 1, x / d, d);
      assert (x + 1) * d == x * d + d;
      MulMonotone(1, d, x);
    }
  }

  lemma MulMonotone(a: int, b: int, c: int)
    requires a <= b && c >= 0
    ensures a * c <= b * c
  {
  }

  /** The quotient is the only `q` with q * d <= x < (q + 1) * d. */
  lemma DivUnique(x: nat, d: int, q: int)
    requires d >= 1
    requires q * d <= x < q * d + d
    ensures x / d == q
  {
    DivBounds(x, d);
    var r := x / d;
    if r < q {
      MulMonotone(r + 1, q, d);
    } else if r > q {
      MulMonotone(q + 1, r, d);
    }
  }

  lemma DivAtLeast(x: nat, d: int, q: nat)
    requires d >= 1 && q * d <= x
    ensures q <= x / d
  {
    DivBounds(x, d);
    var r := x / d;
    if q > r {
      MulMonotone(r + 1, q, d);
    }
  }

  lemma DivOfMultiplePlus(q: nat, d: int, x: nat)
    requires d >= 1
    ensures (q * d + x) / d == q + x / d
  {
    DivBounds(x, d);
    assert (q + x / d) * d == q * d + x / d * d;
    DivUnique(q * d + x, d, q + x / d);
  }

  lemma DivDiv(x: nat, a: int, b: int)
    requires a >= 1 && b >= 1
    ensures a * b >= 1
    ensures x / a / b == x / (a * b)
  {
    MulMonotone(1, a, b);
    DivBounds(x, a);
    var y := x / a;
    DivBounds(y, b);
    ScaledBracket(x, y, y / b, a, b);
    DivUnique(x, a * b, y / b);
  }

  lemma ScaledBracket(x: nat, y: nat, q: nat, a: int, b: int)
    requires a >= 1 && b >= 1
    requires y * a <= x < y * a + a && q * b <= y < q * b + b
    ensures q * (a * b) <= x < q * (a * b) + a * b
  {
    MulMonotone(q * b, y, a);
    MulMonotone(y + 1, q * b + b, a);
    assert q * b * a == q * (a * b) && (q * b + b) * a == q * (a * b) + a * b;
  }

  lemma DivMonotone(x: nat, y: nat, d: int)
    requires d >= 1 && x <= y
    ensures x / d <= y / d
  {
    DivBounds(x, d);
    DivBounds(y, d);
    if x / d > y / d {
      MulMonotone(y / d + 1, x / d, d);
    }
  }
}
