/** The checksum of bech32/checksum.go: created, verified, unique, and sensitive to burst errors. */
module Checksum {
  import opened Polymod

  const CHECKSUM_LENGTH := 6

  // ---------- Folding symbols into the state ----------

  lemma {:induction false} FoldAppend(a: Symbols, b: Symbols, chk: bv32)
    ensures Fold(a + b, chk) == Fold(b, Fold(a, chk))
  {
    if a == [] {
      assert a + b == b;
    } else {
      hide Step;
      assert (a + b)[1..] == a[1..] + b;
      FoldAppend(a[1..], b, Step(chk, a[0]));
    }
  }

  lemma {:induction false} FoldInRange(values: Symbols, chk: bv32)
    requires chk < STATE_LIMIT
    ensures Fold(values, chk) < STATE_LIMIT
  {
    if values != [] {
      StepInRange(chk, values[0]);
      hide Step;
      FoldInRange(values[1..], Step(chk, values[0]));
    }
  }

  /** Different states stay different however many symbols follow. */
  lemma {:induction false} FoldInjective(values: Symbols, a: bv32, b: bv32)
    requires a < STATE_LIMIT && b < STATE_LIMIT
    requires Fold(values, a) == Fold(values, b)
    ensures a == b
  {
    if values != [] {
      hide Step;
      var v := values[0];
      StepInRange(a, v);
      StepInRange(b, v);
      FoldInjective(values[1..], Step(a, v), Step(b, v));
      StepInjective(a, b, v);
    }
  }

  function XorSymbols(x: Symbols, y: Symbols): (z: Symbols)
    requires |x| == |y|
    ensures |z| == |x|
    ensures forall i :: 0 <= i < |x| ==> z[i] == Xor8(x[i], y[i])
  {
    seq(|x|, i requires 0 <= i < |x| => Xor8(x[i], y[i]))
  }

  /** Folding is linear over GF(2) in symbols and state together. */
  lemma {:induction false} FoldLinear(x: Symbols, y: Symbols, a: bv32, b: bv32)
    requires |x| == |y|
    ensures Fold(XorSymbols(x, y), Xor(a, b)) == Xor(Fold(x, a), Fold(y, b))
  {
    if x != [] {
      hide Step, Xor, Xor8;
      var z := XorSymbols(x, y);
      assert z[0] == Xor8(x[0], y[0]);
      assert z[1..] == XorSymbols(x[1..], y[1..]);
      StepLinear(a, b, x[0], y[0]);
      FoldLinear(x[1..], y[1..], Step(a, x[0]), Step(b, y[0]));
    }
  }

  // ---------- Six symbols ----------

  /** Six symbols folded into the state 0 are simply packed. */
  lemma FoldOfSix(c: Symbols)
    requires |c| == 6 && IsSymbols(c)
    ensures Fold(c, 0) == Pack(c[0], c[1], c[2], c[3], c[4], c[5])
  {
    assert Pack(0, 0, 0, 0, 0, 0) == 0;
    hide Step, Pack, Fold;
    FoldSixSteps(c, 0);
    StepOfPack(0, 0, 0, 0, 0, c[0]);
    StepOfPack(0, 0, 0, 0, c[0], c[1]);
    StepOfPack(0, 0, 0, c[0], c[1], c[2]);
    StepOfPack(0, 0, c[0], c[1], c[2], c[3]);
    StepOfPack(0, c[0], c[1], c[2], c[3], c[4]);
    StepOfPack(c[0], c[1], c[2], c[3], c[4], c[5]);
  }

  lemma FoldSixSteps(c: Symbols, chk: bv32)
    requires |c| == 6
    ensures Fold(c, chk) == Step(Step(Step(Step(Step(Step(chk, c[0]), c[1]), c[2]), c[3]), c[4]), c[5])
  {
    hide Step;
    assert c[1..][1..] == c[2..] && c[2..][1..] == c[3..] && c[3..][1..] == c[4..] && c[4..][1..] == c[5..] && c[5..][1..] == [];
    var s1 := Step(chk, c[0]);
    assert Fold(c, chk) == Fold(c[1..], s1);
    var s2 := Step(s1, c[1]);
    assert Fold(c[1..], s1) == Fold(c[2..], s2);
    var s3 := Step(s2, c[2]);
    assert Fold(c[2..], s2) == Fold(c[3..], s3);
    var s4 := Step(s3, c[3]);
    assert Fold(c[3..], s3) == Fold(c[4..], s4);
    var s5 := Step(s4, c[4]);
    assert Fold(c[4..], s4) == Fold(c[5..], s5);
    var s6 := Step(s5, c[5]);
    assert Fold(c[5..], s5) == Fold([], s6);
  }

  /** The five bits of a state above the lowest `n`. */
  function SymbolAt(polymod: bv32, n: nat): bv8
    requires n <= 25
  {
    ((polymod >> n) & 31) as bv8
  }

  /** Symbol `i` of the checksum read off a state. */
  function ChecksumSymbol(polymod: bv32, i: nat): bv8
    requires i < 6
  {
    SymbolAt(polymod, 5 * (5 - i))
  }

  /** The six symbols of a state. */
  function Unpack(polymod: bv32): (c: Symbols)
    ensures |c| == 6
  {
    seq(6, i requires 0 <= i < 6 => ChecksumSymbol(polymod, i))
  }

  lemma SymbolsAtWrittenOut(p: bv32)
    ensures SymbolAt(p, 25) == ((p >> 25) & 31) as bv8
    ensures SymbolAt(p, 20) == ((p >> 20) & 31) as bv8
    ensures SymbolAt(p, 15) == ((p >> 15) & 31) as bv8
    ensures SymbolAt(p, 10) == ((p >> 10) & 31) as bv8
    ensures SymbolAt(p, 5) == ((p >> 5) & 31) as bv8
    ensures SymbolAt(p, 0) == (p & 31) as bv8
  {
  }

  lemma SymbolsWrittenOut(p: bv32)
    ensures ChecksumSymbol(p, 0) == ((p >> 25) & 31) as bv8
    ensures ChecksumSymbol(p, 1) == ((p >> 20) & 31) as bv8
    ensures ChecksumSymbol(p, 2) == ((p >> 15) & 31) as bv8
    ensures ChecksumSymbol(p, 3) == ((p >> 10) & 31) as bv8
    ensures ChecksumSymbol(p, 4) == ((p >> 5) & 31) as bv8
    ensures ChecksumSymbol(p, 5) == (p & 31) as bv8
  {
    hide SymbolAt;
    SymbolsAtWrittenOut(p);
  }

  lemma PackUnpack(p: bv32)
    requires p < STATE_LIMIT
    ensures IsSymbols(Unpack(p))
    ensures var c := Unpack(p); Pack(c[0], c[1], c[2], c[3], c[4], c[5]) == p
  {
    SymbolsWrittenOut(p);
    hide ChecksumSymbol;
    PackOfParts(p);
    SmallParts(p);
  }

  lemma SmallParts(p: bv32)
    ensures ((p >> 25) & 31) as bv8 < 32 && ((p >> 20) & 31) as bv8 < 32 && ((p >> 15) & 31) as bv8 < 32
    ensures ((p >> 10) & 31) as bv8 < 32 && ((p >> 5) & 31) as bv8 < 32 && (p & 31) as bv8 < 32
  {
  }

  lemma PackOfParts(p: bv32)
    requires p < STATE_LIMIT
    ensures Pack(((p >> 25) & 31) as bv8, ((p >> 20) & 31) as bv8, ((p >> 15) & 31) as bv8,
                 ((p >> 10) & 31) as bv8, ((p >> 5) & 31) as bv8, (p & 31) as bv8) == p
  {
  }

  lemma PackInjective(c: Symbols, d: Symbols)
    requires |c| == |d| == 6 && IsSymbols(c) && IsSymbols(d)
    requires Pack(c[0], c[1], c[2], c[3], c[4], c[5]) == Pack(d[0], d[1], d[2], d[3], d[4], d[5])
    ensures c == d
  {
    PartsOfPack(c[0], c[1], c[2], c[3], c[4], c[5]);
    PartsOfPack(d[0], d[1], d[2], d[3], d[4], d[5]);
    hide Pack;
  }

  lemma PartsOfPack(c0: bv8, c1: bv8, c2: bv8, c3: bv8, c4: bv8, c5: bv8)
    requires c0 < 32 && c1 < 32 && c2 < 32 && c3 < 32 && c4 < 32 && c5 < 32
    ensures var p := Pack(c0, c1, c2, c3, c4, c5);
            && ((p >> 25) & 31) as bv8 == c0 && ((p >> 20) & 31) as bv8 == c1 && ((p >> 15) & 31) as bv8 == c2
            && ((p >> 10) & 31) as bv8 == c3 && ((p >> 5) & 31) as bv8 == c4 && (p & 31) as bv8 == c5
  {
  }

  // ---------- Creating and verifying the checksum ----------

  function HighBits(c: bv8): bv8 {
    c >> 5
  }

  function LowBits(c: bv8): bv8 {
    c & 31
  }

  /** bech32HrpExpand: the high bits of every character, 0, the low bits of every character. */
  function HrpExpand(s: seq<bv8>): Symbols {
    seq(|s|, i requires 0 <= i < |s| => HighBits(s[i])) + [0] + seq(|s|, i requires 0 <= i < |s| => LowBits(s[i]))
  }

  const ZEROS: Symbols := [0, 0, 0, 0, 0, 0]

  function CreateChecksum(hrp: seq<bv8>, blocks: Symbols): (c: Symbols)
    ensures |c| == CHECKSUM_LENGTH
  {
    Unpack(Xor(Fold(HrpExpand(hrp) + blocks + ZEROS, 1), 1))
  }

  predicate VerifyChecksum(hrp: seq<bv8>, data: Symbols) {
    Fold(HrpExpand(hrp) + data, 1) == 1
  }

  /** The three high bits and the five low bits of a character, as numbers. */
  lemma BitsOfChar(c: bv8)
    ensures LowBits(c) < 32 && HighBits(c) < 8
    ensures 32 * (HighBits(c) as int) + LowBits(c) as int == c as int
  {
    var high, low := HighBits(c), LowBits(c);
    assert (high << 5) | low == c;
  }

  /** In the expansion, the first half holds every character divided by 32, the second half the remainders,
      and a 0 separates them. */
  ghost predicate IsExpansion(s: seq<bv8>, r: Symbols) {
    && |r| == 2 * |s| + 1 && r[|s|] == 0
    && forall i :: 0 <= i < |s| ==> Splits(s[i], r[i], r[|s| + 1 + i])
  }

  /** `c` divided by 32, and the remainder. */
  ghost predicate Splits(c: bv8, high: bv8, low: bv8) {
    low < 32 && 32 * (high as int) + low as int == c as int
  }

  lemma HrpExpandMeans(s: seq<bv8>)
    ensures IsExpansion(s, HrpExpand(s))
  {
    var r := HrpExpand(s);
    forall i | 0 <= i < |s|
      ensures Splits(s[i], r[i], r[|s| + 1 + i])
    {
      BitsOfChar(s[i]);
      assert r[i] == HighBits(s[i]) && r[|s| + 1 + i] == LowBits(s[i]);
    }
  }

  method Bech32HrpExpand(s: seq<bv8>) returns (res: Symbols)
    ensures res == HrpExpand(s)
    ensures IsExpansion(s, res)
  {
    HrpExpandMeans(s);
    hide IsExpansion;
    res := [];
    for i := 0 to |s|
      invariant res == seq(i, j requires 0 <= j < i => HighBits(s[j]))
    {
      res := res + [HighBits(s[i])];
    }
    ghost var high := res;
    res := res + [0];
    for i := 0 to |s|
      invariant res == high + [0] + seq(i, j requires 0 <= j < i => LowBits(s[j]))
    {
      res := res + [LowBits(s[i])];
    }
  }

  method Bech32CreateChecksum(hrp: seq<bv8>, blocks: Symbols) returns (res: array<bv8>)
    ensures fresh(res) && res[..] == CreateChecksum(hrp, blocks)
  {
    hide IsExpansion;
    var values := Bech32HrpExpand(hrp);
    values := values + blocks;
    var polymod := Bech32Polymod(values + ZEROS);
    polymod := Xor(polymod, 1);
    res := new bv8[6];
    for i := 0 to 6
      invariant forall j :: 0 <= j < i ==> res[j] == ChecksumSymbol(polymod, j)
    {
      res[i] := ChecksumSymbol(polymod, i);
    }
    assert res[..] == Unpack(polymod);
  }

  method Bech32VerifyChecksum(hrp: seq<bv8>, data: Symbols) returns (ok: bool)
    ensures ok == VerifyChecksum(hrp, data)
  {
    hide IsExpansion;
    var values := Bech32HrpExpand(hrp);
    var polymod := Bech32Polymod(values + data);
    ok := polymod == 1;
  }

  /** The valid string "A12UEL5L" of BIP 173, section "Test vectors": these six symbols, read off its
      characters, are the checksum for the human-readable part "a" and no data. */
  lemma KnownChecksum(hrp: seq<bv8>, checksum: Symbols)
    requires hrp == [0x61] && checksum == [10, 28, 25, 31, 20, 31]
    ensures VerifyChecksum(hrp, checksum)
    ensures CreateChecksum(hrp, []) == checksum
  {
    KnownFold(HrpExpand(hrp) + checksum);
    ChecksumUnique(hrp, [], checksum);
    assert [] + checksum == checksum;
  }

  lemma KnownFold(values: Symbols)
    requires values == [3, 0, 1, 10, 28, 25, 31, 20, 31]
    ensures Fold(values, 1) == 1
  {
    hide Fold, Step;
    assert values[0..] == values && values[9..] == [];
    KnownStep(0x1, 3, 0x23, values[0..]);
    KnownStep(0x23, 0, 0x460, values[1..]);
    KnownStep(0x460, 1, 0x8c01, values[2..]);
    KnownStep(0x8c01, 10, 0x11802a, values[3..]);
    KnownStep(0x11802a, 28, 0x230055c, values[4..]);
    KnownStep(0x230055c, 25, 0x3d6afc2b, values[5..]);
    KnownStep(0x3d6afc2b, 31, 0x2f84386, values[6..]);
    KnownStep(0x2f84386, 20, 0x24622766, values[7..]);
    KnownStep(0x24622766, 31, 0x1, values[8..]);
    assert values[8..][1..] == values[9..];
    FoldNothing(1);
  }

  /** One step of the checksum, by the step written out. */
  lemma KnownStep(chk: bv32, v: bv8, next: bv32, values: Symbols)
    requires values != [] && values[0] == v && StepOfBits(chk, v) == next
    ensures Fold(values, chk) == Fold(values[1..], next)
  {
    StepWrittenOut(chk, v);
  }

  lemma FoldNothing(chk: bv32)
    ensures Fold([], chk) == chk
  {
  }

  /** Six symbols folded into a state: what zeros would give, plus the packed symbols. */
  lemma FoldSixFrom(c: Symbols, chk: bv32)
    requires |c| == 6 && IsSymbols(c)
    ensures Fold(c, chk) == Xor(Fold(ZEROS, chk), Pack(c[0], c[1], c[2], c[3], c[4], c[5]))
  {
    XorZero(chk);
    assert XorSymbols(ZEROS, c) == c;
    hide Xor, Pack, Fold;
    FoldLinear(ZEROS, c, chk, 0);
    FoldOfSix(c);
  }

  /** Appending the checksum makes any data verify, and no other six symbols do. */
  lemma ChecksumUnique(hrp: seq<bv8>, blocks: Symbols, c: Symbols)
    requires |c| == CHECKSUM_LENGTH && IsSymbols(c)
    ensures IsSymbols(CreateChecksum(hrp, blocks))
    ensures VerifyChecksum(hrp, blocks + c) <==> c == CreateChecksum(hrp, blocks)
  {
    hide Fold, Xor, Pack, Unpack;
    var values := HrpExpand(hrp) + blocks;
    var chk := Fold(values, 1);
    var goal := Xor(Fold(ZEROS, chk), 1);
    FoldInRange(values, 1);
    FoldInRange(ZEROS, chk);
    XorInRange(Fold(ZEROS, chk), 1);
    assert HrpExpand(hrp) + (blocks + c) == values + c;
    FoldAppend(values, c, 1);
    FoldAppend(values, ZEROS, 1);
    FoldSixFrom(c, chk);
    PackUnpack(goal);
    var u := CreateChecksum(hrp, blocks);
    assert u == Unpack(goal);
    var p := Pack(c[0], c[1], c[2], c[3], c[4], c[5]);
    XorSolve(Fold(ZEROS, chk), p, 1);
    if p == goal {
      PackInjective(c, u);
    }
  }

  lemma XorSolve(a: bv32, x: bv32, b: bv32)
    ensures Xor(a, x) == b <==> x == Xor(a, b)
  {
    hide Xor;
    XorAssociative(a, a, x);
    XorAssociative(a, a, b);
    XorSelf(a);
    XorZero(x);
    XorZero(b);
  }

  // ---------- Burst errors ----------

  /** Six symbols or fewer fold the state 0 to 0 only if they are all 0. */
  lemma OnlyZerosFoldToZero(d: Symbols)
    requires |d| <= 6 && IsSymbols(d) && Fold(d, 0) == 0
    ensures forall i :: 0 <= i < |d| ==> d[i] == 0
  {
    hide Fold, Pack;
    var n := 6 - |d|;
    var e := ZEROS[..n] + d;
    FoldZeros(n);
    FoldAppend(ZEROS[..n], d, 0);
    FoldOfSix(e);
    PackOfZeros();
    PackInjective(e, ZEROS);
    forall i | 0 <= i < |d|
      ensures d[i] == 0
    {
      assert e[n + i] == d[i];
    }
  }

  /** Up to six differing symbols never fold to the same state. */
  lemma WindowInjective(u: Symbols, w: Symbols, chk: bv32)
    requires |u| == |w| <= 6 && IsSymbols(u) && IsSymbols(w)
    requires Fold(u, chk) == Fold(w, chk)
    ensures u == w
  {
    hide Fold, Xor, Xor8;
    FoldLinear(u, w, chk, chk);
    XorSelf(chk);
    XorSelf(Fold(u, chk));
    XorIsSymbols(u, w);
    OnlyZerosFoldToZero(XorSymbols(u, w));
    forall i | 0 <= i < |u|
      ensures u[i] == w[i]
    {
      assert XorSymbols(u, w)[i] == Xor8(u[i], w[i]);
      EqualIfXorZero(u[i], w[i]);
    }
  }

  lemma EqualIfXorZero(x: bv8, y: bv8)
    requires Xor8(x, y) == 0
    ensures x == y
  {
  }

  lemma XorIsSymbols(u: Symbols, w: Symbols)
    requires |u| == |w| && IsSymbols(u) && IsSymbols(w)
    ensures IsSymbols(XorSymbols(u, w))
  {
    forall i | 0 <= i < |u|
      ensures Xor8(u[i], w[i]) < 32
    {
      XorBelow32(u[i], w[i]);
    }
  }

  lemma XorBelow32(x: bv8, y: bv8)
    requires x < 32 && y < 32
    ensures Xor8(x, y) < 32
  {
  }

  lemma PackOfZeros()
    ensures Pack(0, 0, 0, 0, 0, 0) == 0
  {
  }

  lemma {:induction false} FoldZeros(n: nat)
    requires n <= 6
    ensures Fold(ZEROS[..n], 0) == 0
  {
    if n > 0 {
      assert Step(0, 0) == 0 by {
        PackOfZeros();
        StepOfPack(0, 0, 0, 0, 0, 0);
      }
      hide Step;
      assert ZEROS[..n][1..] == ZEROS[..n - 1];
      FoldZeros(n - 1);
    }
  }

  /** A burst error is always detected: two words of any length that differ only inside a window of
      six symbols do not both verify. */
  lemma BurstErrorDetected(hrp: seq<bv8>, x: Symbols, y: Symbols, from: nat, to: nat)
    requires IsSymbols(x) && IsSymbols(y) && |x| == |y|
    requires from <= to <= |x| && to - from <= 6
    requires x[..from] == y[..from] && x[to..] == y[to..]
    requires VerifyChecksum(hrp, x) && VerifyChecksum(hrp, y)
    ensures x == y
  {
    hide Fold;
    var p := HrpExpand(hrp) + x[..from];
    var u, w, s := x[from..to], y[from..to], x[to..];
    assert HrpExpand(hrp) + x == p + (u + s) && HrpExpand(hrp) + y == p + (w + s);
    var chk := Fold(p, 1);
    FoldAppend(p, u + s, 1);
    FoldAppend(p, w + s, 1);
    FoldAppend(u, s, chk);
    FoldAppend(w, s, chk);
    FoldInRange(p, 1);
    FoldInRange(u, chk);
    FoldInRange(w, chk);
    FoldInjective(s, Fold(u, chk), Fold(w, chk));
    WindowInjective(u, w, chk);
    assert x == x[..from] + u + s && y == x[..from] + w + s;
  }
}
