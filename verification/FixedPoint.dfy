/** The 64-by-32-bit fixed point multiplication of mana_decay_provider.go. */
module FixedPoint {
  import opened Common
  import opened Words

  function SplitUint64(value: uint64): (words: (uint64, uint64))
    ensures words.0 < TWO_TO_THE_32 && words.1 < TWO_TO_THE_32
    ensures words.0 * TWO_TO_THE_32 + words.1 == value
  {
    (value / TWO_TO_THE_32, value % TWO_TO_THE_32)
  }

  /** Joins two words; the bits of `valueHi` above the lower 32 are lost. */
  function MergeUint64(valueHi: uint64, valueLo: uint64): (value: uint64)
    requires valueLo < TWO_TO_THE_32
    ensures value == (valueHi % TWO_TO_THE_32) * TWO_TO_THE_32 + valueLo
  {
    (valueHi * TWO_TO_THE_32) % TWO_TO_THE_64 + valueLo
  }

  /** Multiplies the value with the words `valueHi` and `valueLo` by `factor` and scales it by
      2^-scale, in wrapping 64-bit arithmetic. Scales above 32 are an error. */
  function FixedPointMultiplication32Splitted(valueHi: uint64, valueLo: uint64, factor: uint64, scale: uint64)
    : (r: Option<(uint64, uint64)>)
    ensures r.None? <==> scale > 32
    ensures r.Some? ==> r.value.1 < TWO_TO_THE_32
  {
    if scale > 32 then None
    else
      var hi := Mul64(valueHi, factor);
      DivBounds(hi, Pow2(scale));
      var lo := Add64(Shl64(hi % Pow2(scale), 32 - scale), Shr64(Mul64(valueLo, factor), scale));
      Some((Add64(Shr64(hi, scale), lo / TWO_TO_THE_32), lo % TWO_TO_THE_32))
  }

  function FixedPointMultiplication32(value: uint64, factor: uint64, scale: uint64): uint64 {
    var remainingScale := if scale > 32 then scale - 32 else 0;
    var (valueHi, valueLo) := SplitUint64(value);
    var (resultHi, resultLo) :=
      FixedPointMultiplication32Splitted(valueHi, valueLo, factor, if scale > 32 then 32 else scale).value;
    Shr64(MergeUint64(resultHi, resultLo), remainingScale)
  }

  /** floor(value * factor / 2^scale) over the integers. */
  function Scaled(value: nat, factor: nat, scale: nat): nat {
    DivBounds(value * factor, Pow2(scale));
    value * factor / Pow2(scale)
  }

  /** Both partial products and the upper word of the result fit into 64 bits. */
  predicate ProductFits(valueHi: nat, valueLo: nat, factor: nat, scale: nat) {
    && valueHi * factor < TWO_TO_THE_64
    && valueLo * factor < TWO_TO_THE_64
    && Scaled(valueHi * TWO_TO_THE_32 + valueLo, factor, scale) < TWO_TO_THE_32 * TWO_TO_THE_64
  }

  lemma Product32Fits(valueHi: nat, valueLo: nat, factor: nat, scale: nat)
    requires valueHi < TWO_TO_THE_32 && valueLo < TWO_TO_THE_32 && factor < TWO_TO_THE_32
    ensures ProductFits(valueHi, valueLo, factor, scale)
  {
    MulMonotone(valueHi, TWO_TO_THE_32 - 1, factor);
    MulMonotone(valueLo, TWO_TO_THE_32 - 1, factor);
    var value := valueHi * TWO_TO_THE_32 + valueLo;
    MulMonotone(value, TWO_TO_THE_64 - 1, factor);
    assert (TWO_TO_THE_64 - 1) * factor <= (TWO_TO_THE_64 - 1) * TWO_TO_THE_32;
    DivBounds(value * factor, Pow2(scale));
  }

  /** A word `h == a * p + r` times q, when p * q == 2^32. */
  lemma WordTimes(h: int, a: int, r: int, p: int, q: int)
    requires h == a * p + r && p * q == TWO_TO_THE_32
    ensures h * q == a * TWO_TO_THE_32 + r * q
    ensures h * TWO_TO_THE_32 == h * q * p
  {
    assert a * p * q == a * (p * q);
    assert h * q * p == h * (p * q);
  }

  /** Over the integers, splitting a product `h * 2^32 + l` at `p` (with p * q == 2^32) and carrying
      from the lower to the upper word loses nothing. */
  lemma CarryExact(h: nat, l: nat, p: int, q: int)
    requires p >= 1 && q >= 1 && p * q == TWO_TO_THE_32
    ensures var lo := h % p * q + l / p;
            (h / p + lo / TWO_TO_THE_32) * TWO_TO_THE_32 + lo % TWO_TO_THE_32 == (h * TWO_TO_THE_32 + l) / p
  {
    DivBounds(l, p);
    DivBounds(h, p);
    WordTimes(h, h / p, h % p, p, q);
    MulMonotone(0, h, q);
    DivOfMultiplePlus(h * q, p, l);
  }

  /** `r * q + b` for a remainder `r` below p and p * q == 2^32. */
  lemma LowerWordFits(r: nat, b: nat, l: nat, p: int, q: int)
    requires 1 <= p && 1 <= q && p * q == TWO_TO_THE_32
    requires r < p && l < TWO_TO_THE_64 && b * p <= l
    ensures 0 <= r * q < TWO_TO_THE_32
    ensures 0 <= r * q + b < TWO_TO_THE_64
  {
    MulMonotone(r + 1, p, q);
    assert (r + 1) * q == r * q + q;
    if p == 1 {
      assert r == 0;
    } else {
      MulMonotone(2, p, b);
      assert b * p == p * b;
    }
  }

  /** The steps of the function, for the products h and l of the two words in wrapping arithmetic: only
      the upper word of the result can wrap. */
  lemma WordsAsComputed(valueHi: uint64, valueLo: uint64, factor: uint64, scale: nat,
                        h: uint64, l: uint64, lo: uint64, hi: nat)
    requires scale <= 32 && h == Mul64(valueHi, factor) && l == Mul64(valueLo, factor)
    requires 0 <= h % Pow2(scale) && 0 <= l / Pow2(scale) && 0 <= h / Pow2(scale)
    requires 0 <= h % Pow2(scale) * Pow2(32 - scale) < TWO_TO_THE_64
    requires lo == h % Pow2(scale) * Pow2(32 - scale) + l / Pow2(scale)
    requires hi == h / Pow2(scale) + lo / TWO_TO_THE_32
    ensures FixedPointMultiplication32Splitted(valueHi, valueLo, factor, scale)
            == Some((hi % TWO_TO_THE_64, lo % TWO_TO_THE_32))
  {
    hide Mul64, Pow2;
    var p := Pow2(scale);
    DivBounds(h, p);
    DivBounds(l, p);
    var r: uint64 := h % p;
    WrapNothing(r * Pow2(32 - scale));
    assert Shl64(r, 32 - scale) == r * Pow2(32 - scale);
    assert Shr64(l, scale) == l / p && Shr64(h, scale) == h / p;
    WrapNothing(lo);
    assert Add64(Shl64(r, 32 - scale), Shr64(l, scale)) == lo;
  }

  lemma WrapNothing(x: nat)
    requires x < TWO_TO_THE_64
    ensures x % TWO_TO_THE_64 == x
  {
  }

  lemma ProductOfWords(valueHi: nat, valueLo: nat, factor: nat)
    ensures (valueHi * TWO_TO_THE_32 + valueLo) * factor == valueHi * factor * TWO_TO_THE_32 + valueLo * factor
  {
  }

  /** The integer arithmetic behind one multiplication: h and l are the products of the two words. */
  lemma WordArithmetic(h: nat, l: nat, p: int, q: int)
    requires p >= 1 && q >= 1 && p * q == TWO_TO_THE_32
    requires l < TWO_TO_THE_64
    ensures var lo := h % p * q + l / p;
            var hi := h / p + lo / TWO_TO_THE_32;
            && 0 <= h % p * q < TWO_TO_THE_64
            && 0 <= l / p && 0 <= h / p
            && 0 <= lo < TWO_TO_THE_64
            && 0 <= hi
            && hi * TWO_TO_THE_32 + lo % TWO_TO_THE_32 == (h * TWO_TO_THE_32 + l) / p
  {
    DivBounds(h, p);
    DivBounds(l, p);
    LowerWordFits(h % p, l / p, l, p, q);
    CarryExact(h, l, p, q);
  }

  /** The words returned, for any arguments: those of the floor of the products of the two words, each
      reduced to 64 bits; only the upper word of the result wraps. */
  lemma SplittedWrapped(valueHi: uint64, valueLo: uint64, factor: uint64, scale: nat) returns (hi: nat)
    requires scale <= 32
    ensures var r := FixedPointMultiplication32Splitted(valueHi, valueLo, factor, scale).value;
            && r.0 == hi % TWO_TO_THE_64
            && hi * TWO_TO_THE_32 + r.1 == FloorOfWords(Mul64(valueHi, factor), Mul64(valueLo, factor), scale)
  {
    hide Mul64, Pow2;
    var h: uint64, l: uint64 := Mul64(valueHi, factor), Mul64(valueLo, factor);
    Pow2Complement32(scale);
    WordArithmetic(h, l, Pow2(scale), Pow2(32 - scale));
    var lo := h % Pow2(scale) * Pow2(32 - scale) + l / Pow2(scale);
    hi := h / Pow2(scale) + lo / TWO_TO_THE_32;
    WordsAsComputed(valueHi, valueLo, factor, scale, h, l, lo, hi);
  }

  /** floor((h * 2^32 + l) / 2^scale). */
  function FloorOfWords(h: nat, l: nat, scale: nat): nat {
    DivBounds(h * TWO_TO_THE_32 + l, Pow2(scale));
    (h * TWO_TO_THE_32 + l) / Pow2(scale)
  }

  /** While nothing overflows, the words returned are exactly those of floor(value * factor / 2^scale). */
  lemma SplittedExact(valueHi: uint64, valueLo: uint64, factor: uint64, scale: nat)
    requires scale <= 32 && ProductFits(valueHi, valueLo, factor, scale)
    ensures var r := FixedPointMultiplication32Splitted(valueHi, valueLo, factor, scale).value;
            r.0 * TWO_TO_THE_32 + r.1 == Scaled(valueHi * TWO_TO_THE_32 + valueLo, factor, scale)
  {
    hide FixedPointMultiplication32Splitted, Pow2;
    MulMonotone(0, valueHi, factor);
    MulMonotone(0, valueLo, factor);
    ProductOfWords(valueHi, valueLo, factor);
    var hi := SplittedWrapped(valueHi, valueLo, factor, scale);
    WrapNothing(valueHi * factor);
    WrapNothing(valueLo * factor);
    WrapNothing(hi);
  }

  function Min(a: nat, b: nat): nat {
    if a <= b then a else b
  }

  /** The product with the lower word of the value fits into 64 bits, as it does for every factor of at
      most 32 bits. */
  predicate LowWordFits(value: uint64, factor: uint64) {
    value % TWO_TO_THE_32 * factor < TWO_TO_THE_64
  }

  lemma LowHalf(x: nat)
    ensures x % TWO_TO_THE_64 % TWO_TO_THE_32 == x % TWO_TO_THE_32
  {
  }

  lemma JoinedModulo(hi: nat, lo: nat)
    requires lo < TWO_TO_THE_32
    ensures (hi * TWO_TO_THE_32 + lo) % TWO_TO_THE_64 == hi % TWO_TO_THE_32 * TWO_TO_THE_32 + lo
  {
    ModuloOfMultiplePlus(hi / TWO_TO_THE_32, hi % TWO_TO_THE_32 * TWO_TO_THE_32 + lo);
  }

  lemma MergeIsModulo(hi: nat, lo: uint64, x: nat)
    requires lo < TWO_TO_THE_32 && x == hi * TWO_TO_THE_32 + lo
    ensures MergeUint64(hi % TWO_TO_THE_64, lo) == x % TWO_TO_THE_64
  {
    hide MergeUint64;
    LowHalf(hi);
    JoinedModulo(hi, lo);
  }

  /** The upper word may be multiplied modulo 2^64: what wraps lies above the bits that are merged. */
  lemma UpperWordMayWrap(h: nat, l: nat, p: int, q: int)
    requires p >= 1 && q >= 1 && p * q == TWO_TO_THE_32
    ensures 0 <= (h % TWO_TO_THE_64 * TWO_TO_THE_32 + l) / p
    ensures (h % TWO_TO_THE_64 * TWO_TO_THE_32 + l) / p % TWO_TO_THE_64 == (h * TWO_TO_THE_32 + l) / p % TWO_TO_THE_64
  {
    var a: nat, h': nat := h / TWO_TO_THE_64, h % TWO_TO_THE_64;
    var x: nat := h' * TWO_TO_THE_32 + l;
    var k := a * q * TWO_TO_THE_64;
    MulMonotone(0, a, q);
    assert h * TWO_TO_THE_32 + l == a * TWO_TO_THE_32 * TWO_TO_THE_64 + x;
    assert a * TWO_TO_THE_32 == a * q * p by {
      assert a * q * p == a * (p * q);
    }
    TimesOver(a * q, p);
    DivOfMultiplePlus(k, p, x);
    DivBounds(x, p);
    ModuloOfMultiplePlus(a * q, x / p);
  }

  lemma TimesOver(b: int, p: int)
    ensures b * p * TWO_TO_THE_64 == b * TWO_TO_THE_64 * p
  {
  }

  lemma ModuloOfMultiplePlus(b: nat, y: nat)
    ensures (b * TWO_TO_THE_64 + y) % TWO_TO_THE_64 == y % TWO_TO_THE_64
  {
  }

  /** Dropping bits 64 and up changes the quotient, as long as the shift is at most 64. */
  lemma DroppedBitsShow(x: nat, rem: nat)
    requires x >= TWO_TO_THE_64 && rem <= 64
    ensures x % TWO_TO_THE_64 / Pow2(rem) < x / Pow2(rem)
  {
    var merged: nat, p: int, q: int := x % TWO_TO_THE_64, Pow2(rem), Pow2(64 - rem);
    Pow2Complement64(rem);
    assert merged + TWO_TO_THE_64 <= x;
    QuotientGrows(merged, x, p, q);
  }

  lemma QuotientGrows(merged: nat, x: nat, p: int, q: int)
    requires p >= 1 && q >= 1 && merged + q * p <= x
    ensures merged / p < x / p
  {
    DivBounds(merged, p);
    var y := merged / p;
    assert (y + q) * p == y * p + q * p;
    DivAtLeast(x, p, y + q);
  }

  lemma ShiftsAdd(x: nat, a: nat, b: nat)
    ensures x / Pow2(a) / Pow2(b) == x / Pow2(a + b)
  {
    Pow2Add(a, b);
    DivDiv(x, Pow2(a), Pow2(b));
  }

  lemma ScaledInSteps(value: nat, factor: nat, a: nat, b: nat)
    ensures Scaled(value, factor, a + b) == Scaled(value, factor, a) / Pow2(b)
  {
    MulMonotone(0, value, factor);
    ShiftsAdd(value * factor, a, b);
  }

  /** What the function computes from any arguments: the product with the lower word is reduced to 64
      bits, the scaled product is reduced to 64 bits, and the rest of the scale is shifted out. */
  lemma MergedWords(value: uint64, factor: uint64, scale: uint64)
    ensures var m := Min(scale, 32);
            var (valueHi, valueLo) := SplitUint64(value);
            && 0 <= valueHi * factor && 0 <= valueLo * factor
            && FixedPointMultiplication32(value, factor, scale)
               == FloorOfWords(valueHi * factor, valueLo * factor % TWO_TO_THE_64, m) % TWO_TO_THE_64 / Pow2(scale - m)
  {
    hide Pow2, MergeUint64, FixedPointMultiplication32Splitted;
    var (valueHi, valueLo) := SplitUint64(value);
    var m := Min(scale, 32);
    MulMonotone(0, valueHi, factor);
    MulMonotone(0, valueLo, factor);
    var hi := SplittedWrapped(valueHi, valueLo, factor, m);
    var words := FixedPointMultiplication32Splitted(valueHi, valueLo, factor, m).value;
    MergeIsModulo(hi, words.1, FloorOfWords(Mul64(valueHi, factor), Mul64(valueLo, factor), m));
    Pow2Complement32(m);
    UpperWordMayWrap(valueHi * factor, Mul64(valueLo, factor), Pow2(m), Pow2(32 - m));
  }

  lemma FloorOfProducts(value: uint64, factor: uint64, scale: nat)
    ensures var (valueHi, valueLo) := SplitUint64(value);
            && 0 <= valueHi * factor && 0 <= valueLo * factor
            && FloorOfWords(valueHi * factor, valueLo * factor, scale) == Scaled(value, factor, scale)
  {
    hide Pow2;
    var (valueHi, valueLo) := SplitUint64(value);
    MulMonotone(0, valueHi, factor);
    MulMonotone(0, valueLo, factor);
    ProductOfWords(valueHi, valueLo, factor);
  }

  /** What the merge keeps of the scaled product, and the shift that follows it. */
  lemma MergedProduct(value: uint64, factor: uint64, scale: uint64)
    requires LowWordFits(value, factor)
    ensures var m := Min(scale, 32);
            && FixedPointMultiplication32(value, factor, scale)
               == Scaled(value, factor, m) % TWO_TO_THE_64 / Pow2(scale - m)
            && Scaled(value, factor, scale) == Scaled(value, factor, m) / Pow2(scale - m)
  {
    hide Pow2, FixedPointMultiplication32, FloorOfWords, Scaled;
    var m := Min(scale, 32);
    MergedWords(value, factor, scale);
    FloorOfProducts(value, factor, m);
    WrapNothing(value % TWO_TO_THE_32 * factor);
    ScaledInSteps(value, factor, m, scale - m);
  }

  /** The quotient survives the merge exactly if there are no bits to drop, or it is 0 anyway. */
  lemma ReducedQuotientIff(x: nat, rem: nat)
    ensures x % TWO_TO_THE_64 / Pow2(rem) == x / Pow2(rem) <==> x < TWO_TO_THE_64 || x < Pow2(rem)
  {
    if x >= TWO_TO_THE_64 {
      if rem <= 64 {
        DroppedBitsShow(x, rem);
        Pow2Monotone(rem, 64);
        Pow2At64();
      } else {
        Pow2Monotone(64, rem);
        Pow2At64();
        SmallQuotient(x % TWO_TO_THE_64, Pow2(rem));
        SmallQuotient(x, Pow2(rem));
      }
    }
  }

  lemma SmallQuotient(x: nat, d: nat)
    requires d >= 1
    ensures x / d == 0 <==> x < d
  {
    DivBounds(x, d);
    if x < d {
      DivUnique(x, d, 0);
    }
  }

  /** Losing bits of the lower product loses at least 2^(64 - m) of the scaled product, which shows as
      long as at most 64 bits are shifted out in all. */
  lemma LowWordWrapShows(h: nat, l: nat, m: nat, rem: nat)
    requires m <= 32 && l >= TWO_TO_THE_64 && (rem == 0 || (m == 32 && rem <= 32))
    ensures FloorOfWords(h, l % TWO_TO_THE_64, m) % TWO_TO_THE_64 / Pow2(rem) < FloorOfWords(h, l, m) / Pow2(rem)
  {
    hide Pow2, FloorOfWords;
    var a: nat, l': nat, k := l / TWO_TO_THE_64, l % TWO_TO_THE_64, Pow2(64 - m);
    var x, y := FloorOfWords(h, l, m), FloorOfWords(h, l', m);
    Pow2Complement64(m);
    MulMonotone(1, a, k);
    FloorOfLargerWord(h, l', a, m, k);
    Pow2Monotone(rem, 64 - m);
    QuotientGrows(y % TWO_TO_THE_64, x, Pow2(rem), 1);
  }

  lemma FloorOfLargerWord(h: nat, l: nat, a: nat, m: nat, k: int)
    requires k >= 1 && k * Pow2(m) == TWO_TO_THE_64
    ensures FloorOfWords(h, a * TWO_TO_THE_64 + l, m) == a * k + FloorOfWords(h, l, m)
  {
    hide Pow2;
    MulMonotone(0, a, k);
    TimesOfProduct(a, k, Pow2(m));
    DivOfMultiplePlus(a * k, Pow2(m), h * TWO_TO_THE_32 + l);
  }

  lemma TimesOfProduct(a: int, k: int, p: int)
    requires k * p == TWO_TO_THE_64
    ensures a * TWO_TO_THE_64 == a * k * p
  {
    assert a * k * p == a * (k * p);
  }

  /** The product with the lower word fits into 64 bits, and the product before the final shift fits
      into 64 bits or the final shift leaves nothing of it. */
  predicate NothingLost(value: uint64, factor: uint64, scale: uint64) {
    && LowWordFits(value, factor)
    && (|| Scaled(value, factor, Min(scale, 32)) < TWO_TO_THE_64
        || Scaled(value, factor, Min(scale, 32)) < Pow2(scale - Min(scale, 32)))
  }

  /** The wrapper computes floor(value * factor / 2^scale) exactly if nothing is lost on the way, for all
      factors of at most 32 bits, and for larger ones if the scale is at most 64. */
  lemma MultiplicationExactIff(value: uint64, factor: uint64, scale: uint64)
    requires factor < TWO_TO_THE_32 || scale <= 64
    ensures FixedPointMultiplication32(value, factor, scale) == Scaled(value, factor, scale)
       <==> NothingLost(value, factor, scale)
  {
    hide FixedPointMultiplication32, Scaled, Pow2, FloorOfWords;
    SmallFactorFits(value, factor);
    if LowWordFits(value, factor) {
      MergedProduct(value, factor, scale);
      ReducedQuotientIff(Scaled(value, factor, Min(scale, 32)), scale - Min(scale, 32));
    } else {
      WideFactorShows(value, factor, scale);
    }
  }

  lemma SmallFactorFits(value: uint64, factor: uint64)
    ensures factor < TWO_TO_THE_32 ==> LowWordFits(value, factor)
  {
    if factor < TWO_TO_THE_32 {
      MulMonotone(value % TWO_TO_THE_32, TWO_TO_THE_32 - 1, factor);
      MulMonotone(factor, TWO_TO_THE_32, TWO_TO_THE_32 - 1);
    }
  }

  lemma WideFactorShows(value: uint64, factor: uint64, scale: uint64)
    requires !LowWordFits(value, factor) && scale <= 64
    ensures FixedPointMultiplication32(value, factor, scale) < Scaled(value, factor, scale)
  {
    hide Pow2, FixedPointMultiplication32, FloorOfWords, Scaled;
    var (valueHi, valueLo) := SplitUint64(value);
    var m := Min(scale, 32);
    MergedWords(value, factor, scale);
    FloorOfProducts(value, factor, m);
    LowWordWrapShows(valueHi * factor, valueLo * factor, m, scale - m);
    ScaledInSteps(value, factor, m, scale - m);
  }

  /** 2^63 times 2 comes out as 0: the carry into bit 64 is lost when the words are merged. */
  lemma MultiplicationDropsBit64()
    ensures FixedPointMultiplication32(0x8000_0000_0000_0000, 2, 0) == 0
    ensures Scaled(0x8000_0000_0000_0000, 2, 0) == TWO_TO_THE_64
  {
    hide FixedPointMultiplication32;
    assert Pow2(0) == 1;
    MergedProduct(0x8000_0000_0000_0000, 2, 0);
  }

  /** A factor of 33 bits, as mana generation can pass it: (2^32 - 1) * (2^32 + 1) is 2^64 - 1, and one
      more than that factor comes out too small. */
  lemma WideFactorWraps()
    ensures FixedPointMultiplication32(0xFFFF_FFFF, 0x1_0000_0001, 0) == Scaled(0xFFFF_FFFF, 0x1_0000_0001, 0)
    ensures FixedPointMultiplication32(0xFFFF_FFFF, 0x1_0000_0002, 0) < Scaled(0xFFFF_FFFF, 0x1_0000_0002, 0)
  {
    hide FixedPointMultiplication32;
    assert Pow2(0) == 1;
    MultiplicationExactIff(0xFFFF_FFFF, 0x1_0000_0001, 0);
    WideFactorShows(0xFFFF_FFFF, 0x1_0000_0002, 0);
  }
}
