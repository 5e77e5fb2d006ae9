/** Mana decay and generation (mana_decay_provider.go). */
module ManaDecay {
  import opened Common
  import opened Words
  import opened FixedPoint
  import TimeProvider

  type uint8 = x: int | 0 <= x < 256

  /** The immutable fields set by NewManaDecayProvider, with the widths of the parameters they come from. */
  datatype ManaDecayProvider = ManaDecayProvider(
    timeProvider: TimeProvider.TimeProvider,
    slotsPerEpochExponent: uint8,
    generationRate: uint8,
    generationRateExponent: uint8,
    decayFactors: seq<uint32>,
    decayFactorsExponent: uint8,
    decayFactorEpochsSum: uint32,
    decayFactorEpochsSumExponent: uint8)
  {
    /** The table has at most 2^16 - 1 entries (its length prefix is a uint16). */
    ghost predicate Valid() {
      |decayFactors| < TWO_TO_THE_16
    }

    /** No factor increases a value. */
    ghost predicate FactorsAtMostOne() {
      decayFactorsExponent <= 32 && forall f :: f in decayFactors ==> f <= Pow2(decayFactorsExponent)
    }

    /** Every factor decreases a positive value. */
    ghost predicate FactorsBelowOne() {
      decayFactorsExponent <= 32 && forall f :: f in decayFactors ==> f < Pow2(decayFactorsExponent)
    }

    ghost predicate NonIncreasing() {
      forall i, j :: 0 <= i <= j < |decayFactors| ==> decayFactors[j] <= decayFactors[i]
    }
  }

  datatype ManaError = CreationExceedsTarget | ScaleTooLarge | Overflow | Underflow

  /** The number of epochs covered by the next iteration. */
  function Diff(p: ManaDecayProvider, epochs: nat): (d: nat)
    requires epochs > 0 && |p.decayFactors| > 0
    ensures 1 <= d <= epochs && d <= |p.decayFactors|
  {
    Min(epochs, |p.decayFactors|)
  }

  /** The words after decaying by `epochs`, table length by table length. */
  function DecayWords(p: ManaDecayProvider, valueHi: uint64, valueLo: uint64, epochs: nat): (r: Option<(uint64,
      uint64)>)
    requires |p.decayFactors| > 0 && valueLo < TWO_TO_THE_32
    ensures r.Some? ==> r.value.1 < TWO_TO_THE_32
    decreases epochs
  {
    if epochs == 0 then Some((valueHi, valueLo))
    else
      var d := Diff(p, epochs);
      var r := FixedPointMultiplication32Splitted(valueHi, valueLo, p.decayFactors[d - 1], p.decayFactorsExponent);
      if r.None? then None else DecayWords(p, r.value.0, r.value.1, epochs - d)
  }

  /** The value after decaying by `epochs`. */
  function Decayed(p: ManaDecayProvider, value: uint64, epochs: uint32): Option<uint64> {
    if value == 0 || epochs == 0 || |p.decayFactors| == 0 then Some(value)
    else
      var (valueHi, valueLo) := SplitUint64(value);
      var r := DecayWords(p, valueHi, valueLo, epochs);
      if r.None? then None else Some(MergeUint64(r.value.0, r.value.1))
  }

  lemma {:induction false} DecayWordsFail(p: ManaDecayProvider, valueHi: uint64, valueLo: uint64, epochs: nat)
    requires |p.decayFactors| > 0 && valueLo < TWO_TO_THE_32
    ensures DecayWords(p, valueHi, valueLo, epochs).None? <==> epochs > 0 && p.decayFactorsExponent > 32
    decreases epochs
  {
    if epochs > 0 && p.decayFactorsExponent <= 32 {
      var d := Diff(p, epochs);
      var r := FixedPointMultiplication32Splitted(valueHi, valueLo, p.decayFactors[d - 1], p.decayFactorsExponent).value;
      DecayWordsFail(p, r.0, r.1, epochs - d);
    }
  }

  method Decay(p: ManaDecayProvider, value: uint64, epochDiff: uint32) returns (r: Option<uint64>)
    requires p.Valid()
    ensures r == Decayed(p, value, epochDiff)
    ensures r.None? <==> value != 0 && epochDiff != 0 && |p.decayFactors| != 0 && p.decayFactorsExponent > 32
  {
    if value == 0 || epochDiff == 0 || |p.decayFactors| == 0 {
      return Some(value);
    }
    var (valueHi, valueLo) := SplitUint64(value);
    DecayWordsFail(p, valueHi, valueLo, epochDiff);
    ghost var goal := DecayWords(p, valueHi, valueLo, epochDiff);
    var remainingEpochDiff := epochDiff;
    while remainingEpochDiff > 0
      invariant 0 <= remainingEpochDiff <= epochDiff
      invariant valueLo < TWO_TO_THE_32
      invariant DecayWords(p, valueHi, valueLo, remainingEpochDiff) == goal
    {
      var diffsToDecay := remainingEpochDiff;
      if diffsToDecay > |p.decayFactors| {
        diffsToDecay := |p.decayFactors|;
      }
      var decayFactor := p.decayFactors[diffsToDecay - 1];
      var words := FixedPointMultiplication32Splitted(valueHi, valueLo, decayFactor, p.decayFactorsExponent);
      if words.None? {
        return None;
      }
      remainingEpochDiff := remainingEpochDiff - diffsToDecay;
      valueHi, valueLo := words.value.0, words.value.1;
    }
    return Some(MergeUint64(valueHi, valueLo));
  }

  // ---------- Decay over the integers ----------

  /** Decay as a chain of floors over the integers: no words, no wrap-around. */
  ghost function ExactDecay(p: ManaDecayProvider, value: nat, epochs: nat): nat
    decreases epochs
  {
    if epochs == 0 || |p.decayFactors| == 0 then value
    else
      var d := Diff(p, epochs);
      ExactDecay(p, Scaled(value, p.decayFactors[d - 1], p.decayFactorsExponent), epochs - d)
  }

  lemma ScaledAtMost(value: nat, factor: nat, scale: nat)
    requires factor <= Pow2(scale)
    ensures Scaled(value, factor, scale) <= value
  {
    MulMonotone(factor, Pow2(scale), value);
    assert factor * value == value * factor;
    DivMonotone(value * factor, value * Pow2(scale), Pow2(scale));
    DivUnique(value * Pow2(scale), Pow2(scale), value);
  }

  lemma MergeSmall(valueHi: uint64, valueLo: uint64)
    requires valueHi < TWO_TO_THE_32 && valueLo < TWO_TO_THE_32
    ensures MergeUint64(valueHi, valueLo) == valueHi * TWO_TO_THE_32 + valueLo
  {
  }

  lemma {:induction false} ZeroStaysZero(p: ManaDecayProvider, epochs: nat)
    ensures ExactDecay(p, 0, epochs) == 0
    decreases epochs
  {
    if epochs > 0 && |p.decayFactors| > 0 {
      var d := Diff(p, epochs);
      assert Scaled(0, p.decayFactors[d - 1], p.decayFactorsExponent) == 0;
      ZeroStaysZero(p, epochs - d);
    }
  }

  /** One iteration on two words below 2^32. */
  lemma IterationExact(p: ManaDecayProvider, valueHi: uint64, valueLo: uint64, d: nat)
    requires 1 <= d <= |p.decayFactors| && p.FactorsAtMostOne()
    requires valueHi < TWO_TO_THE_32 && valueLo < TWO_TO_THE_32
    ensures var f, e := p.decayFactors[d - 1], p.decayFactorsExponent;
            var r := FixedPointMultiplication32Splitted(valueHi, valueLo, f, e).value;
            && r.0 < TWO_TO_THE_32 && r.1 < TWO_TO_THE_32
            && r.0 * TWO_TO_THE_32 + r.1 == Scaled(valueHi * TWO_TO_THE_32 + valueLo, f, e)
  {
    hide Scaled, FixedPointMultiplication32Splitted, ProductFits, Pow2;
    var f, e := p.decayFactors[d - 1], p.decayFactorsExponent;
    assert f in p.decayFactors;
    Product32Fits(valueHi, valueLo, f, e);
    SplittedExact(valueHi, valueLo, f, e);
    ScaledAtMost(valueHi * TWO_TO_THE_32 + valueLo, f, e);
  }

  lemma {:induction false} DecayWordsExact(p: ManaDecayProvider, valueHi: uint64, valueLo: uint64, epochs: nat)
    requires |p.decayFactors| > 0 && p.FactorsAtMostOne()
    requires valueHi < TWO_TO_THE_32 && valueLo < TWO_TO_THE_32
    ensures DecayWords(p, valueHi, valueLo, epochs).Some?
    ensures var r := DecayWords(p, valueHi, valueLo, epochs).value;
            && r.0 < TWO_TO_THE_32
            && r.0 * TWO_TO_THE_32 + r.1 == ExactDecay(p, valueHi * TWO_TO_THE_32 + valueLo, epochs)
    decreases epochs
  {
    hide Scaled, FixedPointMultiplication32Splitted, Pow2;
    if epochs > 0 {
      var d := Diff(p, epochs);
      var f, e := p.decayFactors[d - 1], p.decayFactorsExponent;
      IterationExact(p, valueHi, valueLo, d);
      var r := FixedPointMultiplication32Splitted(valueHi, valueLo, f, e).value;
      DecayWordsExact(p, r.0, r.1, epochs - d);
    }
  }

  /** With factors of at most one, decaying never overflows a word and is the chain of floors. */
  lemma DecayIsExact(p: ManaDecayProvider, value: uint64, epochs: uint32)
    requires p.FactorsAtMostOne()
    ensures Decayed(p, value, epochs) == Some(ExactDecay(p, value, epochs))
  {
    if value == 0 {
      ZeroStaysZero(p, epochs);
    } else if |p.decayFactors| > 0 && epochs > 0 {
      hide DecayWords, ExactDecay, MergeUint64;
      var (valueHi, valueLo) := SplitUint64(value);
      DecayWordsExact(p, valueHi, valueLo, epochs);
      var r := DecayWords(p, valueHi, valueLo, epochs).value;
      MergeSmall(r.0, r.1);
    }
  }

  /** The number of iterations: ceil(epochs / table length). */
  ghost function Iterations(p: ManaDecayProvider, epochs: nat): nat
    requires |p.decayFactors| > 0
    decreases epochs
  {
    if epochs == 0 then 0 else 1 + Iterations(p, epochs - Diff(p, epochs))
  }

  /** The product of the factors used. */
  ghost function FactorProduct(p: ManaDecayProvider, epochs: nat): nat
    requires |p.decayFactors| > 0
    decreases epochs
  {
    if epochs == 0 then 1 else p.decayFactors[Diff(p, epochs) - 1] * FactorProduct(p, epochs - Diff(p, epochs))
  }

  lemma {:induction false} IterationsIsCeiling(p: ManaDecayProvider, epochs: nat)
    requires |p.decayFactors| > 0
    ensures var n, k := |p.decayFactors|, Iterations(p, epochs);
            epochs <= k * n < epochs + n
    decreases epochs
  {
    if epochs > 0 {
      IterationsIsCeiling(p, epochs - Diff(p, epochs));
      var n, k := |p.decayFactors|, Iterations(p, epochs);
      assert k * n == (k - 1) * n + n;
    }
  }

  lemma {:induction false} FactorProductAtMost(p: ManaDecayProvider, epochs: nat)
    requires |p.decayFactors| > 0 && p.FactorsAtMostOne()
    ensures FactorProduct(p, epochs) <= Pow2(p.decayFactorsExponent * Iterations(p, epochs))
    decreases epochs
  {
    hide Pow2;
    assert Pow2(0) == 1 by { Pow2At0(); }
    if epochs > 0 {
      var d := Diff(p, epochs);
      var f: nat, F, e, k := p.decayFactors[d - 1], FactorProduct(p, epochs - d), p.decayFactorsExponent, Iterations(p, epochs - d);
      assert f in p.decayFactors;
      FactorProductAtMost(p, epochs - d);
      PowerOfNextIteration(e, k);
      ProductAtMost(f, F, Pow2(e), Pow2(e * k));
    }
  }

  lemma Pow2At0()
    ensures Pow2(0) == 1
  {
  }

  lemma PowerOfNextIteration(e: nat, k: nat)
    ensures Pow2(e * (k + 1)) == Pow2(e) * Pow2(e * k)
  {
    assert e * (k + 1) == e + e * k;
    Pow2Add(e, e * k);
  }

  lemma ProductAtMost(a: nat, b: nat, c: nat, d: nat)
    requires a <= c && b <= d
    ensures a * b <= c * d
  {
    MulMonotone(a, c, b);
    MulMonotone(b, d, c);
  }

  lemma Regroup(a: int, b: int, c: int)
    ensures a * b * c == a * (b * c) == a * c * b == b * (a * c)
  {
  }

  /** One step of the rounding bound, from below: w is the scaled value, F and q the factor product
      and the power of two of the remaining iterations, t the end result. */
  lemma RoundingStepLower(v: nat, f: nat, s: nat, w: nat, F: nat, q: nat, t: nat)
    requires w * s <= v * f && t * q <= w * F
    ensures t * (s * q) <= v * (f * F)
  {
    calc {
      t * (s * q);
    == { Regroup(t, q, s); Regroup(t, s, q); }
      t * q * s;
    <= { MulMonotone(t * q, w * F, s); }
      w * F * s;
    == { Regroup(w, F, s); }
      w * s * F;
    <= { MulMonotone(w * s, v * f, F); }
      v * f * F;
    == { Regroup(v, f, F); }
      v * (f * F);
    }
  }

  /** One step of the rounding bound, from above, with u units already granted to the result. */
  lemma RoundingStepUpper(v: nat, f: nat, s: int, w: nat, F: nat, q: int, u: nat)
    requires s >= 1 && q >= 1 && F <= q
    requires v * f < w * s + s
    requires w * F + F <= (u + 1) * q
    ensures v * (f * F) < (u + 1) * (s * q)
  {
    Regroup(v, f, F);
    Regroup(w, F, s);
    Regroup(u + 1, q, s);
    if F == 0 {
      MulMonotone(1, u + 1, q);
      MulMonotone(1, (u + 1) * q, s);
    } else {
      calc {
        v * f * F;
      <= { MulMonotone(v * f, w * s + s - 1, F); }
        (w * s + s - 1) * F;
      == { Distribute(w * s, s, F); }
        w * s * F + s * F - F;
      == { Distribute(w * F, F, s); }
        (w * F + F) * s - F;
      <= { MulMonotone(w * F + F, (u + 1) * q, s); }
        (u + 1) * q * s - F;
      }
    }
  }

  lemma Distribute(a: int, b: int, c: int)
    ensures (a + b) * c == a * c + b * c
    ensures (a + b - 1) * c == a * c + b * c - c
    ensures b * c == c * b
  {
  }

  /** After k iterations with factor product F the result is within k units of value * F / 2^(e * k):
      rounding loses less than one unit per iteration. */
  lemma {:induction false} DecayRoundingBound(p: ManaDecayProvider, value: nat, epochs: nat)
    requires |p.decayFactors| > 0 && p.FactorsAtMostOne()
    ensures var k, F, decayed := Iterations(p, epochs), FactorProduct(p, epochs), ExactDecay(p, value, epochs);
            var s := Pow2(p.decayFactorsExponent * k);
            && decayed * s <= value * F
            && (epochs > 0 ==> value * F < (decayed + k) * s)
            && (epochs == 0 ==> decayed == value)
    decreases epochs
  {
    if epochs > 0 {
      hide Pow2, Scaled;
      var d := Diff(p, epochs);
      var rest := epochs - d;
      var f: nat, e: nat := p.decayFactors[d - 1], p.decayFactorsExponent;
      var w, F, k := Scaled(value, f, e), FactorProduct(p, rest), Iterations(p, rest);
      var s, q := Pow2(e), Pow2(e * k);
      var t := ExactDecay(p, w, rest);
      ScaledBounds(value, f, e);
      DecayRoundingBound(p, w, rest);
      FactorProductAtMost(p, rest);
      PowerOfNextIteration(e, k);
      RoundingStepLower(value, f, s, w, F, q, t);
      UnitsLeft(w, F, q, t, k, e);
      RoundingStepUpper(value, f, s, w, F, q, t + k);
    }
  }

  lemma ScaledBounds(value: nat, factor: nat, scale: nat)
    ensures Scaled(value, factor, scale) * Pow2(scale) <= value * factor
    ensures value * factor < Scaled(value, factor, scale) * Pow2(scale) + Pow2(scale)
  {
    MulMonotone(0, value, factor);
    DivBounds(value * factor, Pow2(scale));
  }

  /** The remaining k iterations leave room for one more unit. */
  lemma UnitsLeft(w: nat, F: nat, q: int, t: nat, k: nat, e: nat)
    requires F <= q && q == Pow2(e * k)
    requires k > 0 ==> w * F < (t + k) * q
    requires k == 0 ==> F == 1 && t == w
    ensures w * F + F <= (t + k + 1) * q
  {
    Distribute(t + k, 1, q);
    if k == 0 {
      assert e * k == 0;
    }
  }

  // ---------- Order laws ----------

  lemma ScaledMonotone(v: nat, f: nat, w: nat, g: nat, scale: nat)
    requires v <= w && f <= g
    ensures Scaled(v, f, scale) <= Scaled(w, g, scale)
  {
    ProductAtMost(v, f, w, g);
    MulMonotone(0, v, f);
    DivMonotone(v * f, w * g, Pow2(scale));
  }

  lemma {:induction false} ExactDecayMonotone(p: ManaDecayProvider, v: nat, w: nat, epochs: nat)
    requires v <= w
    ensures ExactDecay(p, v, epochs) <= ExactDecay(p, w, epochs)
    decreases epochs
  {
    if epochs > 0 && |p.decayFactors| > 0 {
      hide Scaled;
      var d := Diff(p, epochs);
      var f: nat, e := p.decayFactors[d - 1], p.decayFactorsExponent;
      ScaledMonotone(v, f, w, f, e);
      ExactDecayMonotone(p, Scaled(v, f, e), Scaled(w, f, e), epochs - d);
    }
  }

  lemma {:induction false} ExactDecayNeverIncreases(p: ManaDecayProvider, value: nat, epochs: nat)
    requires p.FactorsAtMostOne()
    ensures ExactDecay(p, value, epochs) <= value
    decreases epochs
  {
    if epochs > 0 && |p.decayFactors| > 0 {
      hide Scaled, Pow2;
      var d := Diff(p, epochs);
      var f: nat, e := p.decayFactors[d - 1], p.decayFactorsExponent;
      assert f in p.decayFactors;
      ScaledAtMost(value, f, e);
      ExactDecayNeverIncreases(p, Scaled(value, f, e), epochs - d);
    }
  }

  lemma {:induction false} ExactDecayAntitone(p: ManaDecayProvider, value: nat, m: nat, n: nat)
    requires p.FactorsAtMostOne() && p.NonIncreasing() && m <= n
    ensures ExactDecay(p, value, n) <= ExactDecay(p, value, m)
    decreases n
  {
    if m == 0 || |p.decayFactors| == 0 {
      ExactDecayNeverIncreases(p, value, n);
    } else {
      hide Scaled, Pow2;
      var d, c, e := Diff(p, n), Diff(p, m), p.decayFactorsExponent;
      var f: nat, g: nat := p.decayFactors[d - 1], p.decayFactors[c - 1];
      ScaledMonotone(value, f, value, g, e);
      var v, w := Scaled(value, f, e), Scaled(value, g, e);
      if m - c > 0 {
        assert c == d;
        ExactDecayAntitone(p, w, m - c, n - d);
      } else {
        ExactDecayNeverIncreases(p, v, n - d);
      }
    }
  }

  /** What is left of a mana value grows with the value, never exceeds it and shrinks with the
      number of epochs. */
  lemma DecayOrderLaws(p: ManaDecayProvider, v: uint64, w: uint64, m: uint32, n: uint32)
    requires p.FactorsAtMostOne() && p.NonIncreasing()
    requires v <= w && m <= n
    ensures Decayed(p, v, n).Some? && Decayed(p, w, m).Some?
    ensures Decayed(p, v, n).value <= Decayed(p, w, m).value <= w
  {
    hide Decayed;
    DecayIsExact(p, v, n);
    DecayIsExact(p, w, m);
    ExactDecayMonotone(p, v, w, n);
    ExactDecayAntitone(p, w, m, n);
    ExactDecayNeverIncreases(p, w, m);
  }

  /** Decaying a whole table length first and then the rest is decaying in one go. */
  lemma DecayComposes(p: ManaDecayProvider, value: uint64, epochs: uint32)
    requires p.Valid() && p.FactorsAtMostOne() && |p.decayFactors| + epochs < TWO_TO_THE_32
    ensures var first := Decayed(p, value, |p.decayFactors|);
            && first.Some?
            && Decayed(p, value, |p.decayFactors| + epochs) == Decayed(p, first.value, epochs)
  {
    hide Decayed, Scaled, Pow2;
    var n := |p.decayFactors|;
    DecayIsExact(p, value, n);
    DecayIsExact(p, value, n + epochs);
    var first := ExactDecay(p, value, n);
    ExactDecayNeverIncreases(p, value, n);
    DecayIsExact(p, first, epochs);
    if n > 0 {
      assert Diff(p, n + epochs) == n && Diff(p, n) == n;
      assert ExactDecay(p, value, n) == ExactDecay(p, Scaled(value, p.decayFactors[n - 1], p.decayFactorsExponent), 0);
    }
  }

  function DecayManaByEpochs(p: ManaDecayProvider, mana: uint64, creationEpoch: uint32,
      targetEpoch: uint32): Result<uint64, ManaError>
  {
    if creationEpoch > targetEpoch then Err(CreationExceedsTarget)
    else
      var r := Decayed(p, mana, targetEpoch - creationEpoch);
      if r.None? then Err(ScaleTooLarge) else Ok(r.value)
  }

  function DecayManaBySlots(p: ManaDecayProvider, mana: uint64, creationSlot: uint32,
      targetSlot: uint32): Result<uint64, ManaError>
  {
    DecayManaByEpochs(p, mana, p.timeProvider.EpochFromSlot(creationSlot), p.timeProvider.EpochFromSlot(targetSlot))
  }

  lemma EpochsInOrder(t: TimeProvider.TimeProvider, creationSlot: uint32, targetSlot: uint32)
    requires creationSlot <= targetSlot
    ensures t.EpochFromSlot(creationSlot) <= t.EpochFromSlot(targetSlot)
  {
    if creationSlot > t.genesisSlot {
      DivMonotone(creationSlot - t.genesisSlot, targetSlot - t.genesisSlot, t.SlotsPerEpoch());
    }
  }

  /** Between two slots the mana decays by the chain of floors for the epochs between them. The only
      error is a creation slot in a later epoch than the target; later slots of the same epoch are
      accepted. */
  lemma DecayBySlotsIsExact(p: ManaDecayProvider, mana: uint64, creationSlot: uint32, targetSlot: uint32)
    requires p.FactorsAtMostOne()
    ensures
      var c, t := p.timeProvider.EpochFromSlot(creationSlot), p.timeProvider.EpochFromSlot(targetSlot);
      DecayManaBySlots(p, mana, creationSlot, targetSlot)
      == if c > t then Err(CreationExceedsTarget) else Ok(ExactDecay(p, mana, t - c))
    ensures creationSlot <= targetSlot ==> DecayManaBySlots(p, mana, creationSlot, targetSlot).Ok?
  {
    hide Decayed, ExactDecay;
    var c, t := p.timeProvider.EpochFromSlot(creationSlot), p.timeProvider.EpochFromSlot(targetSlot);
    if creationSlot <= targetSlot {
      EpochsInOrder(p.timeProvider, creationSlot, targetSlot);
    }
    if c <= t {
      DecayIsExact(p, mana, t - c);
    }
  }

  /** Less mana held over a longer time leaves less: for creation <= creation' <= target' <= target
      and v <= w, what is left of v between the outer slots is at most what is left of w between the
      inner ones, and that is at most w. */
  lemma DecayBySlotsOrderLaws(p: ManaDecayProvider, v: uint64, w: uint64, creation: uint32, creation': uint32,
                              target': uint32, target: uint32)
    requires p.FactorsAtMostOne() && p.NonIncreasing()
    requires v <= w && creation <= creation' <= target' <= target
    ensures DecayManaBySlots(p, v, creation, target).Ok? && DecayManaBySlots(p, w, creation', target').Ok?
    ensures DecayManaBySlots(p, v, creation, target).value <= DecayManaBySlots(p, w, creation', target').value <= w
  {
    hide Decayed;
    DecayBySlotsIsExact(p, v, creation, target);
    DecayBySlotsIsExact(p, w, creation', target');
    EpochsInOrder(p.timeProvider, creation, creation');
    EpochsInOrder(p.timeProvider, creation', target');
    EpochsInOrder(p.timeProvider, target', target);
    var n: nat := p.timeProvider.EpochFromSlot(target) - p.timeProvider.EpochFromSlot(creation);
    var m: nat := p.timeProvider.EpochFromSlot(target') - p.timeProvider.EpochFromSlot(creation');
    ExactDecayMonotone(p, v, w, n);
    ExactDecayAntitone(p, w, m, n);
    ExactDecayNeverIncreases(p, w, m);
  }

  /** Stopping over a whole table length of epochs after the creation does not change what is left. */
  lemma DecayBySlotsComposes(p: ManaDecayProvider, mana: uint64, creation: uint32, middle: uint32, target: uint32)
    requires p.Valid() && p.FactorsAtMostOne()
    requires creation <= middle <= target
    requires p.timeProvider.EpochFromSlot(middle) == p.timeProvider.EpochFromSlot(creation) + |p.decayFactors|
    ensures var first := DecayManaBySlots(p, mana, creation, middle);
            && first.Ok?
            && DecayManaBySlots(p, mana, creation, target) == DecayManaBySlots(p, first.value, middle, target)
  {
    hide Decayed;
    EpochsInOrder(p.timeProvider, creation, middle);
    EpochsInOrder(p.timeProvider, middle, target);
    DecayComposes(p, mana, p.timeProvider.EpochFromSlot(target) - p.timeProvider.EpochFromSlot(middle));
    var c, m, t := p.timeProvider.EpochFromSlot(creation), p.timeProvider.EpochFromSlot(middle),
                   p.timeProvider.EpochFromSlot(target);
    var n := |p.decayFactors|;
    assert m - c == n && t - c == n + (t - m);
    DecayBySlotsIsExact(p, mana, creation, target);
  }

  // ---------- Generation ----------

  function GenerateMana(p: ManaDecayProvider, value: uint64, slotDiff: uint32): uint64 {
    if slotDiff == 0 || p.generationRate == 0 then 0
    else FixedPointMultiplication32(value, Mul64(slotDiff, p.generationRate), p.generationRateExponent)
  }

  /** The auxiliary value c of the multi-epoch formula; the exponent is computed in wrapping arithmetic. */
  function GenerationConstant(p: ManaDecayProvider, amount: uint64): uint64 {
    FixedPointMultiplication32(amount, Mul64(p.decayFactorEpochsSum, p.generationRate),
                               Sub64(p.decayFactorEpochsSumExponent + p.generationRateExponent, p.slotsPerEpochExponent))
  }

  function GenerateManaAndDecayBySlots(p: ManaDecayProvider, amount: uint64, creationSlot: uint32, targetSlot: uint32)
    : Result<uint64, ManaError>
  {
    if creationSlot > targetSlot then Err(CreationExceedsTarget)
    else
      var epochDiff := (p.timeProvider.EpochFromSlot(targetSlot) - p.timeProvider.EpochFromSlot(creationSlot)) % TWO_TO_THE_32;
      if epochDiff == 0 then Ok(GenerateMana(p, amount, targetSlot - creationSlot))
      else
        var manaGeneratedFirstEpoch := GenerateMana(p, amount, p.timeProvider.SlotsBeforeNextEpoch(creationSlot));
        var manaDecayedFirstEpoch := Decayed(p, manaGeneratedFirstEpoch, epochDiff);
        if manaDecayedFirstEpoch.None? then Err(ScaleTooLarge)
        else if epochDiff == 1 then
          var manaGeneratedSecondEpoch := GenerateMana(p, amount, p.timeProvider.SlotsSinceEpochStart(targetSlot));
          var result := SafeAdd64(manaDecayedFirstEpoch.value, manaGeneratedSecondEpoch);
          if result.None? then Err(Overflow) else Ok(result.value)
        else
          var c := GenerationConstant(p, amount);
          var c2 := Decayed(p, c, epochDiff - 1);
          if c2.None? then Err(ScaleTooLarge)
          else
            SumOfEpochs(manaDecayedFirstEpoch.value, c, c2.value,
                        GenerateMana(p, amount, p.timeProvider.SlotsSinceEpochStart(targetSlot)), p.decayFactorsExponent)
  }

  /** The checked sum of the multi-epoch formula: first epoch, epochs in between (c less what decayed
      of it), last epoch, less the rounding term c >> exponent. */
  function SumOfEpochs(first: uint64, c: uint64, c2: uint64, last: uint64, exponent: nat): Result<uint64, ManaError> {
    var intermediate := SafeSub64(c, c2);
    if intermediate.None? then Err(Underflow)
    else
      var sum := SafeAdd64(intermediate.value, last);
      if sum.None? then Err(Overflow)
      else
        var total := SafeAdd64(sum.value, first);
        if total.None? then Err(Overflow)
        else
          var result := SafeSub64(total.value, Shr64(c, exponent));
          if result.None? then Err(Underflow) else Ok(result.value)
  }

  /** Decaying by at least one epoch with factors below one takes at least c / 2^exponent off c. */
  lemma DecayTakesRoundingTerm(p: ManaDecayProvider, c: nat, epochs: nat)
    requires |p.decayFactors| > 0 && p.FactorsBelowOne() && epochs > 0
    ensures 0 <= c / Pow2(p.decayFactorsExponent)
    ensures ExactDecay(p, c, epochs) + c / Pow2(p.decayFactorsExponent) <= c
  {
    hide Scaled;
    var d := Diff(p, epochs);
    var f: nat, e := p.decayFactors[d - 1], p.decayFactorsExponent;
    assert f in p.decayFactors;
    ExactDecayNeverIncreases(p, Scaled(c, f, e), epochs - d);
    ScaledMonotone(c, f, c, Pow2(e) - 1, e);
    ScaledBounds(c, Pow2(e) - 1, e);
    OneUnitBelow(c, Pow2(e), Scaled(c, Pow2(e) - 1, e));
  }

  /** floor(c * (s - 1) / s) + floor(c / s) <= c. */
  lemma OneUnitBelow(c: nat, s: int, w: nat)
    requires s >= 1 && w * s <= c * (s - 1)
    ensures 0 <= c / s
    ensures w + c / s <= c
  {
    DivBounds(c, s);
    var y := c / s;
    assert c * (s - 1) == c * s - c;
    Distribute(w, y, s);
    if w + y > c {
      MulMonotone(c + 1, w + y, s);
      Distribute(c, 1, s);
    }
  }

  lemma SumOfEpochsSucceeds(first: uint64, c: uint64, c2: uint64, last: uint64, exponent: nat)
    requires c2 + Shr64(c, exponent) <= c
    ensures var r := SumOfEpochs(first, c, c2, last, exponent);
            && (r.Ok? <==> c - c2 + last + first < TWO_TO_THE_64)
            && (r.Ok? ==> r.value == first + (c - c2) + last - Shr64(c, exponent))
            && (r.Err? ==> r.error == Overflow)
  {
  }

  /** The multi-epoch branch, once both decays are known to succeed. */
  lemma GenerationOverEpochs(p: ManaDecayProvider, amount: uint64, creationSlot: uint32, targetSlot: uint32,
                             first: uint64, c2: uint64, epochDiff: uint32)
    requires creationSlot <= targetSlot && epochDiff >= 2
    requires epochDiff == p.timeProvider.EpochFromSlot(targetSlot) - p.timeProvider.EpochFromSlot(creationSlot)
    requires Decayed(p, GenerateMana(p, amount, p.timeProvider.SlotsBeforeNextEpoch(creationSlot)), epochDiff) == Some(first)
    requires Decayed(p, GenerationConstant(p, amount), epochDiff - 1) == Some(c2)
    ensures GenerateManaAndDecayBySlots(p, amount, creationSlot, targetSlot)
         == SumOfEpochs(first, GenerationConstant(p, amount), c2,
                        GenerateMana(p, amount, p.timeProvider.SlotsSinceEpochStart(targetSlot)), p.decayFactorsExponent)
  {
    hide Decayed, GenerateMana, GenerationConstant, SumOfEpochs, TimeProvider.TimeProvider.EpochFromSlot;
    assert epochDiff % TWO_TO_THE_32 == epochDiff;
  }

  /** The branch for subsequent epochs, once the decay is known to succeed. */
  lemma GenerationOverTwoEpochs(p: ManaDecayProvider, amount: uint64, creationSlot: uint32, targetSlot: uint32,
                                first: uint64)
    requires creationSlot <= targetSlot
    requires p.timeProvider.EpochFromSlot(targetSlot) == p.timeProvider.EpochFromSlot(creationSlot) + 1
    requires Decayed(p, GenerateMana(p, amount, p.timeProvider.SlotsBeforeNextEpoch(creationSlot)), 1) == Some(first)
    ensures var sum := first + GenerateMana(p, amount, p.timeProvider.SlotsSinceEpochStart(targetSlot));
            GenerateManaAndDecayBySlots(p, amount, creationSlot, targetSlot)
            == if sum < TWO_TO_THE_64 then Ok(sum) else Err(Overflow)
  {
    hide Decayed, GenerateMana, GenerationConstant, SumOfEpochs, TimeProvider.TimeProvider.EpochFromSlot;
  }

  /** Multi-epoch generation never fails for want of mana: with a table of factors below one both
      subtractions succeed, and the only error left is an overflow of the sums. The result is at
      least the decayed mana of the first epoch plus the mana of the last one. */
  lemma GenerationNeverUnderflows(p: ManaDecayProvider, amount: uint64, creationSlot: uint32, targetSlot: uint32)
    requires |p.decayFactors| > 0 && p.FactorsBelowOne()
    requires creationSlot <= targetSlot
    requires p.timeProvider.EpochFromSlot(targetSlot) >= p.timeProvider.EpochFromSlot(creationSlot) + 2
    ensures
      var epochDiff := p.timeProvider.EpochFromSlot(targetSlot) - p.timeProvider.EpochFromSlot(creationSlot);
      var first := ExactDecay(p, GenerateMana(p, amount, p.timeProvider.SlotsBeforeNextEpoch(creationSlot)), epochDiff);
      var c := GenerationConstant(p, amount);
      var intermediate := c - ExactDecay(p, c, epochDiff - 1);
      var last := GenerateMana(p, amount, p.timeProvider.SlotsSinceEpochStart(targetSlot));
      var r := GenerateManaAndDecayBySlots(p, amount, creationSlot, targetSlot);
      && 0 <= Shr64(c, p.decayFactorsExponent) <= intermediate
      && (r.Ok? <==> intermediate + last + first < TWO_TO_THE_64)
      && (r.Ok? ==> r.value == first + intermediate + last - Shr64(c, p.decayFactorsExponent) && r.value >= first + last)
      && (r.Err? ==> r.error == Overflow)
  {
    hide Decayed, GenerateMana, GenerationConstant, ExactDecay, Pow2, SumOfEpochs, GenerateManaAndDecayBySlots;
    var epochDiff := p.timeProvider.EpochFromSlot(targetSlot) - p.timeProvider.EpochFromSlot(creationSlot);
    var c := GenerationConstant(p, amount);
    var generated := GenerateMana(p, amount, p.timeProvider.SlotsBeforeNextEpoch(creationSlot));
    var last := GenerateMana(p, amount, p.timeProvider.SlotsSinceEpochStart(targetSlot));
    assert p.FactorsAtMostOne();
    DecayIsExact(p, generated, epochDiff);
    DecayIsExact(p, c, epochDiff - 1);
    var first, c2 := ExactDecay(p, generated, epochDiff), ExactDecay(p, c, epochDiff - 1);
    DecayTakesRoundingTerm(p, c, epochDiff - 1);
    GenerationOverEpochs(p, amount, creationSlot, targetSlot, first, c2, epochDiff);
    SumOfEpochsSucceeds(first, c, c2, last, p.decayFactorsExponent);
  }

  /** No step of the generation for these slots overflows. */
  ghost predicate GenerationFits(p: ManaDecayProvider, value: uint64, slotDiff: uint32) {
    var factor := slotDiff * p.generationRate;
    RateProduct(slotDiff, p.generationRate);
    && LowWordFits(value, factor)
    && Scaled(value, factor, Min(p.generationRateExponent, 32)) < TWO_TO_THE_64
  }

  /** Without overflow the generated mana is floor(value * slots * rate / 2^exponent). */
  lemma GenerationExact(p: ManaDecayProvider, value: uint64, slotDiff: uint32)
    requires GenerationFits(p, value, slotDiff)
    ensures 0 <= slotDiff * p.generationRate
    ensures GenerateMana(p, value, slotDiff) == Scaled(value, slotDiff * p.generationRate, p.generationRateExponent)
  {
    var factor := slotDiff * p.generationRate;
    RateProduct(slotDiff, p.generationRate);
    if factor == 0 {
      assert Scaled(value, 0, p.generationRateExponent) == 0;
    } else {
      hide Scaled, LowWordFits, FixedPointMultiplication32;
      MergedProduct(value, factor, p.generationRateExponent);
      WrapNothing(Scaled(value, factor, Min(p.generationRateExponent, 32)));
    }
  }

  /** The generated mana is exact exactly if nothing is lost in the multiplication. The factor has up to
      40 bits, although the multiplication is documented for at most 32. */
  lemma GenerationExactIff(p: ManaDecayProvider, value: uint64, slotDiff: uint32)
    requires p.generationRateExponent <= 64
    ensures 0 <= slotDiff * p.generationRate < TWO_TO_THE_64
    ensures GenerateMana(p, value, slotDiff) == Scaled(value, slotDiff * p.generationRate, p.generationRateExponent)
       <==> NothingLost(value, slotDiff * p.generationRate, p.generationRateExponent)
  {
    hide FixedPointMultiplication32;
    var factor := slotDiff * p.generationRate;
    RateProduct(slotDiff, p.generationRate);
    if factor > 0 {
      hide Scaled, NothingLost;
      MultiplicationExactIff(value, factor, p.generationRateExponent);
    } else {
      ZeroFactor(value, p.generationRateExponent);
    }
  }

  lemma ZeroFactor(value: uint64, scale: uint64)
    ensures Scaled(value, 0, scale) == 0 && NothingLost(value, 0, scale)
  {
    DivUnique(0, Pow2(scale), 0);
    DivUnique(0, Pow2(Min(scale, 32)), 0);
  }

  lemma FewerSlotsFit(p: ManaDecayProvider, value: uint64, s: uint32, t: uint32)
    requires s <= t && GenerationFits(p, value, t)
    ensures GenerationFits(p, value, s)
  {
    hide Scaled;
    RateProduct(s, p.generationRate);
    RateProduct(t, p.generationRate);
    MulMonotone(s, t, p.generationRate);
    var f: nat, g: nat := s * p.generationRate, t * p.generationRate;
    MulMonotone(f, g, value % TWO_TO_THE_32);
    assert f * (value % TWO_TO_THE_32) == value % TWO_TO_THE_32 * f;
    assert g * (value % TWO_TO_THE_32) == value % TWO_TO_THE_32 * g;
    ScaledMonotone(value, f, value, g, Min(p.generationRateExponent, 32));
  }

  /** floor(x / d) + floor(y / d) <= floor((x + y) / d) <= floor(x / d) + floor(y / d) + 1 for the
      products of two factors. */
  lemma ScaledSum(value: nat, f: nat, g: nat, scale: nat)
    ensures var sum := Scaled(value, f, scale) + Scaled(value, g, scale);
            sum <= Scaled(value, f + g, scale) <= sum + 1
  {
    hide Scaled, Pow2;
    var a, b, c, s := Scaled(value, f, scale), Scaled(value, g, scale), Scaled(value, f + g, scale), Pow2(scale);
    ScaledBounds(value, f, scale);
    ScaledBounds(value, g, scale);
    ScaledBounds(value, f + g, scale);
    assert value * (f + g) == value * f + value * g;
    Distribute(a, b, s);
    if c < a + b {
      Distribute(c, 1, s);
      MulMonotone(c + 1, a + b, s);
    } else if c > a + b + 1 {
      Distribute(a + b, 2, s);
      MulMonotone(a + b + 2, c, s);
    }
  }

  /** Claiming the generated mana in two steps never yields more than claiming it at once, and loses
      at most one unit. */
  lemma GenerationInTwoSteps(p: ManaDecayProvider, value: uint64, s: uint32, t: uint32)
    requires s + t < TWO_TO_THE_32 && GenerationFits(p, value, s + t)
    ensures var sum := GenerateMana(p, value, s) + GenerateMana(p, value, t);
            sum <= GenerateMana(p, value, s + t) <= sum + 1
  {
    hide Scaled, GenerateMana, GenerationFits;
    FewerSlotsFit(p, value, s, s + t);
    FewerSlotsFit(p, value, t, s + t);
    GenerationExact(p, value, s);
    GenerationExact(p, value, t);
    GenerationExact(p, value, s + t);
    Distribute(s, t, p.generationRate);
    ScaledSum(value, s * p.generationRate, t * p.generationRate, p.generationRateExponent);
  }

  lemma RateProduct(slotDiff: uint32, rate: uint8)
    ensures 0 <= slotDiff * rate < TWO_TO_THE_64
    ensures Mul64(slotDiff, rate) == slotDiff * rate
    ensures slotDiff * rate == 0 <==> slotDiff == 0 || rate == 0
  {
    MulMonotone(slotDiff, TWO_TO_THE_32, rate);
    MulMonotone(0, slotDiff, rate);
    if slotDiff > 0 {
      MulMonotone(1, slotDiff, rate);
    }
  }

  // ---------- The value in every branch, over the integers ----------

  lemma SumProduct(sum: uint32, rate: uint8)
    ensures 0 <= sum * rate < TWO_TO_THE_64
    ensures Mul64(sum, rate) == sum * rate
  {
    MulMonotone(sum, TWO_TO_THE_32, rate);
    MulMonotone(0, sum, rate);
  }

  /** The exponents of the constant c do not underflow. */
  ghost predicate ConstantScales(p: ManaDecayProvider) {
    p.slotsPerEpochExponent <= p.decayFactorEpochsSumExponent + p.generationRateExponent
  }

  /** The constant c over the integers:
      floor(amount * sum * rate / 2^(sum exponent + rate exponent - slots exponent)). */
  ghost function ExactConstant(p: ManaDecayProvider, amount: uint64): nat
    requires ConstantScales(p)
  {
    SumProduct(p.decayFactorEpochsSum, p.generationRate);
    Scaled(amount, p.decayFactorEpochsSum * p.generationRate,
           p.decayFactorEpochsSumExponent + p.generationRateExponent - p.slotsPerEpochExponent)
  }

  /** Nothing is lost when the constant is computed. */
  ghost predicate ConstantFits(p: ManaDecayProvider, amount: uint64) {
    SumProduct(p.decayFactorEpochsSum, p.generationRate);
    && ConstantScales(p)
    && NothingLost(amount, p.decayFactorEpochsSum * p.generationRate,
                   p.decayFactorEpochsSumExponent + p.generationRateExponent - p.slotsPerEpochExponent)
  }

  lemma NothingLostIsExact(value: uint64, factor: uint64, scale: uint64)
    requires NothingLost(value, factor, scale)
    ensures FixedPointMultiplication32(value, factor, scale) == Scaled(value, factor, scale)
  {
    hide FixedPointMultiplication32, Scaled, Pow2, LowWordFits;
    MergedProduct(value, factor, scale);
    ReducedQuotientIff(Scaled(value, factor, Min(scale, 32)), scale - Min(scale, 32));
  }

  /** The constant is exact if nothing is lost, and for scales up to 64 only then. */
  lemma GenerationConstantExact(p: ManaDecayProvider, amount: uint64)
    requires ConstantScales(p)
    ensures ConstantFits(p, amount) ==> GenerationConstant(p, amount) == ExactConstant(p, amount)
    ensures p.decayFactorEpochsSumExponent + p.generationRateExponent - p.slotsPerEpochExponent <= 64 ==>
      (GenerationConstant(p, amount) == ExactConstant(p, amount) <==> ConstantFits(p, amount))
  {
    hide FixedPointMultiplication32, Scaled, NothingLost, Mul64;
    SumProduct(p.decayFactorEpochsSum, p.generationRate);
    var factor := p.decayFactorEpochsSum * p.generationRate;
    var scale: nat := p.decayFactorEpochsSumExponent + p.generationRateExponent - p.slotsPerEpochExponent;
    assert Sub64(p.decayFactorEpochsSumExponent + p.generationRateExponent, p.slotsPerEpochExponent) == scale;
    if NothingLost(amount, factor, scale) {
      NothingLostIsExact(amount, factor, scale);
    }
    if scale <= 64 {
      MultiplicationExactIff(amount, factor, scale);
    }
  }

  /** Mana of `slots` slots over the integers: floor(amount * slots * rate / 2^exponent). */
  ghost function ExactlyGenerated(p: ManaDecayProvider, amount: uint64, slots: uint32): nat {
    RateProduct(slots, p.generationRate);
    Scaled(amount, slots * p.generationRate, p.generationRateExponent)
  }

  /** The only error for a creation slot after the target slot, and for no other slots. */
  lemma CreationExceedsTargetIff(p: ManaDecayProvider, amount: uint64, creationSlot: uint32, targetSlot: uint32)
    ensures GenerateManaAndDecayBySlots(p, amount, creationSlot, targetSlot) == Err(CreationExceedsTarget)
       <==> creationSlot > targetSlot
  {
    hide Decayed, GenerateMana, GenerationConstant, TimeProvider.TimeProvider.EpochFromSlot;
  }

  lemma DecayedFailsIff(p: ManaDecayProvider, value: uint64, epochs: uint32)
    ensures Decayed(p, value, epochs).None?
       <==> value != 0 && epochs != 0 && |p.decayFactors| != 0 && p.decayFactorsExponent > 32
  {
    if value != 0 && epochs != 0 && |p.decayFactors| != 0 {
      var (valueHi, valueLo) := SplitUint64(value);
      DecayWordsFail(p, valueHi, valueLo, epochs);
    }
  }

  /** A scale above 32 is an error exactly if there is mana to decay over an epoch boundary. */
  lemma ScaleTooLargeIff(p: ManaDecayProvider, amount: uint64, creationSlot: uint32, targetSlot: uint32)
    requires creationSlot <= targetSlot
    ensures
      var epochDiff := p.timeProvider.EpochFromSlot(targetSlot) - p.timeProvider.EpochFromSlot(creationSlot);
      GenerateManaAndDecayBySlots(p, amount, creationSlot, targetSlot) == Err(ScaleTooLarge)
      <==> && |p.decayFactors| != 0 && p.decayFactorsExponent > 32
           && (|| (epochDiff >= 1 && GenerateMana(p, amount, p.timeProvider.SlotsBeforeNextEpoch(creationSlot)) != 0)
               || (epochDiff >= 2 && GenerationConstant(p, amount) != 0))
  {
    hide Decayed, GenerateMana, GenerationConstant, TimeProvider.TimeProvider.EpochFromSlot;
    EpochsInOrder(p.timeProvider, creationSlot, targetSlot);
    var epochDiff: uint32 := p.timeProvider.EpochFromSlot(targetSlot) - p.timeProvider.EpochFromSlot(creationSlot);
    assert epochDiff % TWO_TO_THE_32 == epochDiff;
    DecayedFailsIff(p, GenerateMana(p, amount, p.timeProvider.SlotsBeforeNextEpoch(creationSlot)), epochDiff);
    if epochDiff >= 1 {
      DecayedFailsIff(p, GenerationConstant(p, amount), epochDiff - 1);
    }
  }

  /** Within one epoch, the mana of the slots between creation and target. */
  lemma GenerationWithinEpoch(p: ManaDecayProvider, amount: uint64, creationSlot: uint32, targetSlot: uint32)
    requires creationSlot <= targetSlot
    requires p.timeProvider.EpochFromSlot(targetSlot) == p.timeProvider.EpochFromSlot(creationSlot)
    requires GenerationFits(p, amount, targetSlot - creationSlot)
    ensures GenerateManaAndDecayBySlots(p, amount, creationSlot, targetSlot)
         == Ok(ExactlyGenerated(p, amount, targetSlot - creationSlot))
  {
    hide GenerateMana, GenerationFits, TimeProvider.TimeProvider.EpochFromSlot, Scaled;
    GenerationExact(p, amount, targetSlot - creationSlot);
  }

  /** Over one epoch boundary, the mana of the slots before it, decayed by one epoch, and that of the
      slots since; an overflow exactly if the sum does not fit 64 bits. */
  lemma GenerationOverOneEpoch(p: ManaDecayProvider, amount: uint64, creationSlot: uint32, targetSlot: uint32)
    requires p.FactorsAtMostOne() && creationSlot <= targetSlot
    requires p.timeProvider.EpochFromSlot(targetSlot) == p.timeProvider.EpochFromSlot(creationSlot) + 1
    requires GenerationFits(p, amount, p.timeProvider.SlotsBeforeNextEpoch(creationSlot))
    requires GenerationFits(p, amount, p.timeProvider.SlotsSinceEpochStart(targetSlot))
    ensures
      var first := ExactDecay(p, ExactlyGenerated(p, amount, p.timeProvider.SlotsBeforeNextEpoch(creationSlot)), 1);
      var second := ExactlyGenerated(p, amount, p.timeProvider.SlotsSinceEpochStart(targetSlot));
      GenerateManaAndDecayBySlots(p, amount, creationSlot, targetSlot)
      == if first + second < TWO_TO_THE_64 then Ok(first + second) else Err(Overflow)
  {
    hide GenerateManaAndDecayBySlots, GenerateMana, GenerationFits, ExactDecay, Decayed, ExactlyGenerated,
         TimeProvider.TimeProvider.EpochFromSlot;
    var first := GenerateMana(p, amount, p.timeProvider.SlotsBeforeNextEpoch(creationSlot));
    GeneratedIs(p, amount, p.timeProvider.SlotsBeforeNextEpoch(creationSlot));
    GeneratedIs(p, amount, p.timeProvider.SlotsSinceEpochStart(targetSlot));
    DecayIsExact(p, first, 1);
    ExactDecayNeverIncreases(p, first, 1);
    GenerationOverTwoEpochs(p, amount, creationSlot, targetSlot, ExactDecay(p, first, 1));
  }

  lemma SumOfEpochsIs(first: uint64, c: uint64, c2: uint64, last: uint64, exponent: nat)
    requires c2 <= c
    ensures 0 <= c / Pow2(exponent)
    ensures var sum, rounding := first + (c - c2) + last, c / Pow2(exponent);
            SumOfEpochs(first, c, c2, last, exponent)
            == if sum >= TWO_TO_THE_64 then Err(Overflow)
               else if sum < rounding then Err(Underflow)
               else Ok(sum - rounding)
  {
    hide Pow2;
    DivBounds(c, Pow2(exponent));
  }

  /** Over more epoch boundaries, the decayed mana of the first epoch, what c loses by decaying, the mana of
      the last epoch, less c / 2^exponent for the rounding. */
  lemma GenerationOverMoreEpochs(p: ManaDecayProvider, amount: uint64, creationSlot: uint32, targetSlot: uint32)
    requires p.FactorsAtMostOne() && creationSlot <= targetSlot
    requires p.timeProvider.EpochFromSlot(targetSlot) >= p.timeProvider.EpochFromSlot(creationSlot) + 2
    requires GenerationFits(p, amount, p.timeProvider.SlotsBeforeNextEpoch(creationSlot))
    requires GenerationFits(p, amount, p.timeProvider.SlotsSinceEpochStart(targetSlot))
    requires ConstantFits(p, amount)
    ensures
      var epochDiff := p.timeProvider.EpochFromSlot(targetSlot) - p.timeProvider.EpochFromSlot(creationSlot);
      var first := ExactDecay(p, ExactlyGenerated(p, amount, p.timeProvider.SlotsBeforeNextEpoch(creationSlot)), epochDiff);
      var c := ExactConstant(p, amount);
      var last := ExactlyGenerated(p, amount, p.timeProvider.SlotsSinceEpochStart(targetSlot));
      var sum, rounding := first + (c - ExactDecay(p, c, epochDiff - 1)) + last, c / Pow2(p.decayFactorsExponent);
      GenerateManaAndDecayBySlots(p, amount, creationSlot, targetSlot)
      == if sum >= TWO_TO_THE_64 then Err(Overflow)
         else if sum < rounding then Err(Underflow)
         else Ok(sum - rounding)
  {
    hide GenerateManaAndDecayBySlots, GenerateMana, GenerationConstant, GenerationFits, ExactDecay, SumOfEpochs, Scaled,
         Pow2, TimeProvider.TimeProvider.EpochFromSlot, ConstantFits, ExactConstant, ExactlyGenerated, Decayed;
    ConstantFitsScales(p, amount);
    var epochDiff := p.timeProvider.EpochFromSlot(targetSlot) - p.timeProvider.EpochFromSlot(creationSlot);
    var first := GenerateMana(p, amount, p.timeProvider.SlotsBeforeNextEpoch(creationSlot));
    var last := GenerateMana(p, amount, p.timeProvider.SlotsSinceEpochStart(targetSlot));
    var c := GenerationConstant(p, amount);
    GeneratedIs(p, amount, p.timeProvider.SlotsBeforeNextEpoch(creationSlot));
    GeneratedIs(p, amount, p.timeProvider.SlotsSinceEpochStart(targetSlot));
    GenerationConstantExact(p, amount);
    DecayIsExact(p, first, epochDiff);
    DecayIsExact(p, c, epochDiff - 1);
    ExactDecayNeverIncreases(p, c, epochDiff - 1);
    ExactDecayNeverIncreases(p, first, epochDiff);
    GenerationOverEpochs(p, amount, creationSlot, targetSlot, ExactDecay(p, first, epochDiff),
                         ExactDecay(p, c, epochDiff - 1), epochDiff);
    SumOfEpochsIs(ExactDecay(p, first, epochDiff), c, ExactDecay(p, c, epochDiff - 1), last, p.decayFactorsExponent);
  }

  lemma ConstantFitsScales(p: ManaDecayProvider, amount: uint64)
    requires ConstantFits(p, amount)
    ensures ConstantScales(p)
  {
  }

  lemma GeneratedIs(p: ManaDecayProvider, amount: uint64, slots: uint32)
    requires GenerationFits(p, amount, slots)
    ensures GenerateMana(p, amount, slots) == ExactlyGenerated(p, amount, slots)
  {
    hide GenerateMana, GenerationFits, Scaled;
    GenerationExact(p, amount, slots);
  }
}
