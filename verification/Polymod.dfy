/** The checksum polynomial of bech32/checksum.go, one symbol at a time and over sequences.

    The source's `int` has at least 32 bits and the state never leaves the lower 30 (FoldInRange),
    so 32-bit vectors compute the same. Bit vectors are reasoned about in the lemmas on single
    steps; everything about sequences follows from those by induction, with the bit operations
    hidden. */
module Polymod {

  /** Five-bit symbols, one per byte. */
  type Symbols = seq<bv8>

  const GEN: seq<bv32> := [0x3b6a57b2, 0x26508e6d, 0x1ea119fa, 0x3d4233dd, 0x2a1462b3]

  const STATE_LIMIT: bv32 := 0x4000_0000

  predicate IsSymbols(s: Symbols) {
    forall i :: 0 <= i < |s| ==> s[i] < 32
  }

  /** Exclusive or, that is, addition of polynomials over GF(2). */
  function Xor(x: bv32, y: bv32): bv32 {
    x ^ y
  }

  function Xor8(x: bv8, y: bv8): bv8 {
    x ^ y
  }

  /** Bit `i` of the bits shifted out of the state. */
  predicate Bit(b: bv32, i: nat)
    requires i < 5
  {
    (b >> i) & 1 != 0
  }

  /** The generator to add for bit `i`. */
  function Selected(b: bv32, i: nat): bv32
    requires i < 5
  {
    if Bit(b, i) then GEN[i] else 0
  }

  /** The sum of the generators selected by the first `n` bits of `b`. */
  function GenSum(b: bv32, n: nat): bv32
    requires n <= 5
  {
    if n == 0 then 0 else Xor(GenSum(b, n - 1), Selected(b, n - 1))
  }

  /** The state shifted by one symbol, without the five bits that fall out at the top. */
  function Shifted(chk: bv32, v: bv8): bv32 {
    ((chk & 0x1ffffff) << 5) ^ (v as bv32)
  }

  /** The state after one more symbol. */
  function Step(chk: bv32, v: bv8): bv32 {
    Xor(Shifted(chk, v), GenSum(chk >> 25, 5))
  }

  /** The state after all the symbols of `values`. */
  function Fold(values: Symbols, chk: bv32): bv32 {
    if values == [] then chk else Fold(values[1..], Step(chk, values[0]))
  }

  /** bech32Polymod: starts at 1. */
  method Bech32Polymod(values: Symbols) returns (chk: bv32)
    ensures chk == Fold(values, 1)
  {
    hide Xor, Bit;
    chk := 1;
    for k := 0 to |values|
      invariant Fold(values[k..], chk) == Fold(values, 1)
    {
      var v := values[k];
      var b := chk >> 25;
      ghost var before := chk;
      chk := Shifted(chk, v);
      XorZero(chk);
      for i := 0 to |GEN|
        invariant chk == Xor(Shifted(before, v), GenSum(b, i))
      {
        XorAssociative(Shifted(before, v), GenSum(b, i), Selected(b, i));
        XorZero(chk);
        if Bit(b, i) {
          chk := Xor(chk, GEN[i]);
        }
      }
      assert chk == Step(before, v);
      assert values[k..][1..] == values[k + 1..];
    }
  }

  lemma XorAssociative(x: bv32, y: bv32, z: bv32)
    ensures Xor(Xor(x, y), z) == Xor(x, Xor(y, z))
  {
  }

  lemma XorCommutes(x: bv32, y: bv32)
    ensures Xor(x, y) == Xor(y, x)
  {
  }

  lemma XorZero(x: bv32)
    ensures Xor(x, 0) == x == Xor(0, x)
  {
  }

  lemma XorSelf(x: bv32)
    ensures Xor(x, x) == 0
  {
  }

  lemma XorCancels(x: bv32, y: bv32)
    ensures Xor(x, y) == 0 <==> x == y
    ensures Xor(Xor(x, y), y) == x
  {
    XorSelf(y);
    XorZero(x);
    XorZero(y);
    XorAssociative(x, y, y);
    hide Xor;
  }

  // ---------- One step ----------

  function Pick(c: bool, g: bv32): bv32 {
    if c then g else 0
  }

  /** The generator sum written out for the five bits. */
  function GenSumOfBits(b: bv32): bv32 {
    Pick(b & 1 != 0, 0x3b6a57b2) ^ Pick(b & 2 != 0, 0x26508e6d) ^ Pick(b & 4 != 0, 0x1ea119fa)
    ^ Pick(b & 8 != 0, 0x3d4233dd) ^ Pick(b & 16 != 0, 0x2a1462b3)
  }

  lemma MaskedBits(b: bv32)
    ensures Bit(b, 0) == (b & 1 != 0)
    ensures Bit(b, 1) == (b & 2 != 0)
    ensures Bit(b, 2) == (b & 4 != 0)
    ensures Bit(b, 3) == (b & 8 != 0)
    ensures Bit(b, 4) == (b & 16 != 0)
  {
  }

  lemma BitsWrittenOut(b: bv32)
    ensures Selected(b, 0) == Pick(b & 1 != 0, 0x3b6a57b2)
    ensures Selected(b, 1) == Pick(b & 2 != 0, 0x26508e6d)
    ensures Selected(b, 2) == Pick(b & 4 != 0, 0x1ea119fa)
    ensures Selected(b, 3) == Pick(b & 8 != 0, 0x3d4233dd)
    ensures Selected(b, 4) == Pick(b & 16 != 0, 0x2a1462b3)
  {
    MaskedBits(b);
    hide Bit;
  }

  lemma GenSumWrittenOut(b: bv32)
    ensures GenSum(b, 5) == GenSumOfBits(b)
  {
    BitsWrittenOut(b);
    hide Selected;
    assert GenSum(b, 1) == Xor(0, Selected(b, 0));
    assert GenSum(b, 2) == Xor(GenSum(b, 1), Selected(b, 1));
    assert GenSum(b, 3) == Xor(GenSum(b, 2), Selected(b, 2));
    assert GenSum(b, 4) == Xor(GenSum(b, 3), Selected(b, 3));
    assert GenSum(b, 5) == Xor(GenSum(b, 4), Selected(b, 4));
  }

  /** The step as one bit-vector expression. */
  function StepOfBits(chk: bv32, v: bv8): bv32 {
    ((chk & 0x1ffffff) << 5) ^ (v as bv32) ^ GenSumOfBits(chk >> 25)
  }

  lemma StepWrittenOut(chk: bv32, v: bv8)
    ensures Step(chk, v) == StepOfBits(chk, v)
  {
    hide GenSum, GenSumOfBits, Xor;
    GenSumWrittenOut(chk >> 25);
    XorIsXor(((chk & 0x1ffffff) << 5) ^ (v as bv32), GenSumOfBits(chk >> 25));
  }

  lemma XorIsXor(x: bv32, y: bv32)
    ensures Xor(x, y) == x ^ y
  {
  }

  lemma StepInRange(chk: bv32, v: bv8)
    ensures Step(chk, v) < STATE_LIMIT
  {
    StepWrittenOut(chk, v);
    hide Step;
  }

  lemma XorShuffle(a: bv32, b: bv32, c: bv32, d: bv32)
    ensures Xor(Xor(a, b), Xor(c, d)) == Xor(Xor(a, c), Xor(b, d))
  {
    XorCommutes(b, c);
    hide Xor;
    calc {
      Xor(Xor(a, b), Xor(c, d));
    == { XorAssociative(a, b, Xor(c, d)); }
      Xor(a, Xor(b, Xor(c, d)));
    == { XorAssociative(b, c, d); XorAssociative(c, b, d); }
      Xor(a, Xor(c, Xor(b, d)));
    == { XorAssociative(a, c, Xor(b, d)); }
      Xor(Xor(a, c), Xor(b, d));
    }
  }

  lemma BitsOfXor(a: bv32, b: bv32)
    ensures ((a ^ b) & 1 != 0) == ((a & 1 != 0) != (b & 1 != 0))
    ensures ((a ^ b) & 2 != 0) == ((a & 2 != 0) != (b & 2 != 0))
    ensures ((a ^ b) & 4 != 0) == ((a & 4 != 0) != (b & 4 != 0))
    ensures ((a ^ b) & 8 != 0) == ((a & 8 != 0) != (b & 8 != 0))
    ensures ((a ^ b) & 16 != 0) == ((a & 16 != 0) != (b & 16 != 0))
  {
  }

  /** The bits of a sum are the sums of the bits. */
  lemma BitOfXor(a: bv32, b: bv32, i: nat)
    requires i < 5
    ensures Bit(Xor(a, b), i) == (Bit(a, i) != Bit(b, i))
  {
    hide Bit;
    MaskedBits(a);
    MaskedBits(b);
    MaskedBits(a ^ b);
    BitsOfXor(a, b);
    XorIsXor(a, b);
    hide Xor;
    assert i == 0 || i == 1 || i == 2 || i == 3 || i == 4;
  }

  lemma PickLinear(c: bool, d: bool, g: bv32)
    ensures Pick(c != d, g) == Xor(Pick(c, g), Pick(d, g))
  {
    XorSelf(g);
    XorZero(g);
    XorZero(0);
    hide Xor;
  }

  lemma SelectedLinear(a: bv32, b: bv32, i: nat)
    requires i < 5
    ensures Selected(Xor(a, b), i) == Xor(Selected(a, i), Selected(b, i))
  {
    hide Bit, Xor;
    BitOfXor(a, b, i);
    var g := GEN[i];
    PickLinear(Bit(a, i), Bit(b, i), g);
  }

  lemma {:induction false} GenSumLinear(a: bv32, b: bv32, n: nat)
    requires n <= 5
    ensures GenSum(Xor(a, b), n) == Xor(GenSum(a, n), GenSum(b, n))
  {
    if n == 0 {
      XorZero(0);
    } else {
      hide Xor, Selected;
      GenSumLinear(a, b, n - 1);
      SelectedLinear(a, b, n - 1);
      XorShuffle(GenSum(a, n - 1), GenSum(b, n - 1), Selected(a, n - 1), Selected(b, n - 1));
    }
  }

  lemma ShiftedLinear(a: bv32, b: bv32, v: bv8, w: bv8)
    ensures Shifted(Xor(a, b), Xor8(v, w)) == Xor(Shifted(a, v), Shifted(b, w))
    ensures Xor(a, b) >> 25 == Xor(a >> 25, b >> 25)
  {
  }

  /** The step is linear over GF(2). */
  lemma StepLinear(a: bv32, b: bv32, v: bv8, w: bv8)
    ensures Step(Xor(a, b), Xor8(v, w)) == Xor(Step(a, v), Step(b, w))
  {
    hide Xor, Xor8, Shifted, GenSum;
    ShiftedLinear(a, b, v, w);
    GenSumLinear(a >> 25, b >> 25, 5);
    XorShuffle(Shifted(a, v), Shifted(b, w), GenSum(a >> 25, 5), GenSum(b >> 25, 5));
  }

  lemma OnlyZeroStepsToZero(d: bv32)
    requires d < STATE_LIMIT && StepOfBits(d, 0) == 0
    ensures d == 0
  {
  }

  lemma XorInRange(a: bv32, b: bv32)
    requires a < STATE_LIMIT && b < STATE_LIMIT
    ensures Xor(a, b) < STATE_LIMIT
  {
  }

  /** On 30-bit states the step loses nothing. */
  lemma StepInjective(a: bv32, b: bv32, v: bv8)
    requires a < STATE_LIMIT && b < STATE_LIMIT
    requires Step(a, v) == Step(b, v)
    ensures a == b
  {
    hide Xor, Step, StepOfBits;
    StepLinear(a, b, v, v);
    assert Xor8(v, v) == 0;
    XorCancels(Step(a, v), Step(b, v));
    StepWrittenOut(Xor(a, b), 0);
    XorInRange(a, b);
    OnlyZeroStepsToZero(Xor(a, b));
    XorCancels(a, b);
  }

  /** The five-bit symbols of a state, first symbol in the highest bits. */
  function Pack(c0: bv8, c1: bv8, c2: bv8, c3: bv8, c4: bv8, c5: bv8): bv32 {
    ((c0 as bv32) << 25) ^ ((c1 as bv32) << 20) ^ ((c2 as bv32) << 15)
    ^ ((c3 as bv32) << 10) ^ ((c4 as bv32) << 5) ^ (c5 as bv32)
  }

  // ---------- The generator polynomial ----------

  /** Multiplication by the element `a` (the root of a^5 + a^3 + 1) in GF(32). */
  function TimesA(x: bv8): bv8 {
    ((x << 1) & 31) ^ (if x & 16 != 0 then 9 else 0)
  }

  /** The product in GF(32). */
  function TimesGF32(x: bv8, y: bv8): bv8 {
    (if y & 1 != 0 then x else 0)
    ^ (if y & 2 != 0 then TimesA(x) else 0)
    ^ (if y & 4 != 0 then TimesA(TimesA(x)) else 0)
    ^ (if y & 8 != 0 then TimesA(TimesA(TimesA(x))) else 0)
    ^ (if y & 16 != 0 then TimesA(TimesA(TimesA(TimesA(x)))) else 0)
  }

  /** Multiplying by a power of a is multiplying by a as often. */
  lemma ProductWithPowers(x: bv8)
    requires x < 32
    ensures TimesGF32(x, 1) == x && TimesGF32(x, 2) == TimesA(x)
    ensures TimesGF32(x, 4) == TimesA(TimesA(x)) && TimesGF32(x, 8) == TimesA(TimesA(TimesA(x)))
    ensures TimesGF32(x, 16) == TimesA(TimesA(TimesA(TimesA(x))))
  {
    hide TimesA;
  }

  /** a^5 is a^3 + 1, where the powers of a from 1 to 16 are the bits. */
  lemma PowersOfA()
    ensures TimesA(1) == 2 && TimesA(2) == 4 && TimesA(4) == 8 && TimesA(8) == 16 && TimesA(16) == 8 ^ 1
  {
  }

  lemma TimesALinear(x: bv8, y: bv8)
    requires x < 32 && y < 32
    ensures TimesA(x ^ y) == TimesA(x) ^ TimesA(y) < 32
  {
  }

  /** What is added for the symbol `b` shifted out is b times the lower coefficients of the BCH
      generator x^6 + {29}x^5 + {22}x^4 + {20}x^3 + {21}x^2 + {29}x + {18} of BIP 173. */
  lemma GenSumIsGeneratorMultiple(b: bv8)
    requires b < 32
    ensures GenSum(b as bv32, 5)
         == Pack(TimesGF32(b, 29), TimesGF32(b, 22), TimesGF32(b, 20), TimesGF32(b, 21), TimesGF32(b, 29), TimesGF32(b, 18))
  {
    GenSumWrittenOut(b as bv32);
    hide GenSum;
  }

  lemma ShiftedPack(c0: bv8, c1: bv8, c2: bv8, c3: bv8, c4: bv8, c5: bv8, v: bv8)
    requires c0 < 32 && c1 < 32 && c2 < 32 && c3 < 32 && c4 < 32 && c5 < 32 && v < 32
    ensures Pack(c0, c1, c2, c3, c4, c5) >> 25 == c0 as bv32
    ensures Shifted(Pack(c0, c1, c2, c3, c4, c5), v) == Pack(c1, c2, c3, c4, c5, v)
  {
  }

  /** A step multiplies the polynomial c0 x^5 + ... + c5 over GF(32) by x, adds v and reduces the
      result modulo the generator polynomial. */
  lemma StepReducesModGenerator(c0: bv8, c1: bv8, c2: bv8, c3: bv8, c4: bv8, c5: bv8, v: bv8)
    requires c0 < 32 && c1 < 32 && c2 < 32 && c3 < 32 && c4 < 32 && c5 < 32 && v < 32
    ensures Step(Pack(c0, c1, c2, c3, c4, c5), v)
         == Xor(Pack(c1, c2, c3, c4, c5, v),
                Pack(TimesGF32(c0, 29), TimesGF32(c0, 22), TimesGF32(c0, 20),
                     TimesGF32(c0, 21), TimesGF32(c0, 29), TimesGF32(c0, 18)))
  {
    hide Pack, Shifted, GenSum, Xor, TimesGF32;
    ShiftedPack(c0, c1, c2, c3, c4, c5, v);
    GenSumIsGeneratorMultiple(c0);
  }

  /** While no symbol falls out at the top, the step only shifts. */
  lemma StepOfPack(c1: bv8, c2: bv8, c3: bv8, c4: bv8, c5: bv8, v: bv8)
    requires c1 < 32 && c2 < 32 && c3 < 32 && c4 < 32 && c5 < 32 && v < 32
    ensures Step(Pack(0, c1, c2, c3, c4, c5), v) == Pack(c1, c2, c3, c4, c5, v)
  {
    hide Pack, Shifted, GenSum, Xor;
    ShiftedPack(0, c1, c2, c3, c4, c5, v);
    GenSumOfZero();
    XorZero(Pack(c1, c2, c3, c4, c5, v));
  }

  lemma GenSumOfZero()
    ensures GenSum(0, 5) == 0
  {
    GenSumWrittenOut(0);
    hide GenSum;
  }
}
