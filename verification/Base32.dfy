/** Repacking of bytes into five-bit digits and back (bech32/internal/base32/base32.go). */
module Base32 {
  import opened Common
  import opened Polymod

  type Octets = seq<bv8>

  datatype Base32Error = InvalidLength | NonZeroPadding

  /** The error and the number of digits read before it. */
  datatype CorruptInput = CorruptInput(error: Base32Error, offset: nat)

  function EncodedLen(n: nat): nat {
    (n * 8 + 4) / 5
  }

  function DecodedLen(n: nat): nat {
    n * 5 / 8
  }

  function MinLen(n: nat, limit: nat): nat {
    if n < limit then n else limit
  }

  function Zeros(n: nat): (z: Octets)
    ensures |z| == n && forall i :: 0 <= i < n ==> z[i] == 0
  {
    if n == 0 then [] else [0] + Zeros(n - 1)
  }

  // ---------- One quantum: five bytes, eight digits ----------

  // Digit i of a quantum from its bytes and from the carry of the byte that follows, in the order in
  // which Encode computes them.
  function Digit7(s4: bv8): bv8 { s4 & 0x1F }
  function Carry6(s4: bv8): bv8 { s4 >> 5 }
  function Digit6(carry: bv8, s3: bv8): bv8 { carry | ((s3 << 3) & 0x1F) }
  function Digit5(s3: bv8): bv8 { (s3 >> 2) & 0x1F }
  function Carry4(s3: bv8): bv8 { s3 >> 7 }
  function Digit4(carry: bv8, s2: bv8): bv8 { carry | ((s2 << 1) & 0x1F) }
  function Carry3(s2: bv8): bv8 { (s2 >> 4) & 0x1F }
  function Digit3(carry: bv8, s1: bv8): bv8 { carry | ((s1 << 4) & 0x1F) }
  function Digit2(s1: bv8): bv8 { (s1 >> 1) & 0x1F }
  function Carry1(s1: bv8): bv8 { (s1 >> 6) & 0x1F }
  function Digit1(carry: bv8, s0: bv8): bv8 { carry | ((s0 << 2) & 0x1F) }
  function Digit0(s0: bv8): bv8 { s0 >> 3 }

  lemma NoCarryFromZero()
    ensures Carry6(0) == 0 && Carry4(0) == 0 && Carry3(0) == 0 && Carry1(0) == 0
  {
  }

  function Digits(s0: bv8, s1: bv8, s2: bv8, s3: bv8, s4: bv8): (d: Symbols)
    ensures |d| == 8
  {
    [Digit0(s0), Digit1(Carry1(s1), s0), Digit2(s1), Digit3(Carry3(s2), s1),
     Digit4(Carry4(s3), s2), Digit5(s3), Digit6(Carry6(s4), s3), Digit7(s4)]
  }

  // Byte i of a quantum from its digits.
  function Byte4(c6: bv8, c7: bv8): bv8 { (c6 << 5) | c7 }
  function Byte3(c4: bv8, c5: bv8, c6: bv8): bv8 { (c4 << 7) | (c5 << 2) | (c6 >> 3) }
  function Byte2(c3: bv8, c4: bv8): bv8 { (c3 << 4) | (c4 >> 1) }
  function Byte1(c1: bv8, c2: bv8, c3: bv8): bv8 { (c1 << 6) | (c2 << 1) | (c3 >> 4) }
  function Byte0(c0: bv8, c1: bv8): bv8 { (c0 << 3) | (c1 >> 2) }

  function Packed(c0: bv8, c1: bv8, c2: bv8, c3: bv8, c4: bv8, c5: bv8, c6: bv8, c7: bv8): (b: Octets)
    ensures |b| == 5
  {
    [Byte0(c0, c1), Byte1(c1, c2, c3), Byte2(c3, c4), Byte3(c4, c5, c6), Byte4(c6, c7)]
  }

  /** The first five bytes of `src`, with zeros for those that are missing. */
  function Quantum(src: Octets): (s: Octets)
    ensures |s| == 5
    ensures forall i :: 0 <= i < 5 ==> s[i] == if i < |src| then src[i] else 0
  {
    src[..MinLen(|src|, 5)] + Zeros(5 - MinLen(|src|, 5))
  }

  /** The digits of the first five bytes of `src`, or of all of them. */
  function EncodeQuantum(src: Octets): (d: Symbols)
    ensures |d| == EncodedLen(MinLen(|src|, 5))
  {
    var s := Quantum(src);
    Digits(s[0], s[1], s[2], s[3], s[4])[..EncodedLen(MinLen(|src|, 5))]
  }

  /** The first eight digits of `src`, with zeros for those that are missing. */
  function DigitQuantum(src: Symbols): (c: Symbols)
    ensures |c| == 8
    ensures forall i :: 0 <= i < 8 ==> c[i] == if i < |src| then src[i] else 0
  {
    src[..MinLen(|src|, 8)] + Zeros(8 - MinLen(|src|, 8))
  }

  /** The bytes of the first eight digits of `src`, or of all of them. */
  function DecodeQuantum(src: Symbols): (b: Octets)
    ensures |b| == DecodedLen(MinLen(|src|, 8))
  {
    var c := DigitQuantum(src);
    Packed(c[0], c[1], c[2], c[3], c[4], c[5], c[6], c[7])[..DecodedLen(MinLen(|src|, 8))]
  }

  // ---------- Sequences ----------

  function Encoded(src: Octets): (d: Symbols)
    ensures |d| == EncodedLen(|src|)
  {
    if |src| <= 5 then EncodeQuantum(src) else EncodeQuantum(src) + Encoded(src[5..])
  }

  /** Lengths no encoding has. */
  predicate BadLength(n: nat) {
    n == 1 || n == 3 || n == 6
  }

  /** The bits of the last digit that belong to no byte are not zero. */
  predicate BadPadding(src: Symbols) {
    || (|src| == 2 && src[1] & 3 != 0)
    || (|src| == 4 && src[3] & 15 != 0)
    || (|src| == 5 && src[4] & 1 != 0)
    || (|src| == 7 && src[6] & 7 != 0)
  }

  /** The bytes decoded and the error, if any, for digits of which `read` were read before. */
  function Decoded(src: Symbols, read: nat): (r: (Octets, Option<CorruptInput>))
    ensures |r.0| <= DecodedLen(|src|)
    ensures r.1.None? ==> |r.0| == DecodedLen(|src|)
  {
    if |src| == 0 then ([], None)
    else if BadLength(|src|) then ([], Some(CorruptInput(InvalidLength, read)))
    else if |src| >= 8 then
      var rest := Decoded(src[8..], read + 8);
      (DecodeQuantum(src) + rest.0, rest.1)
    else (DecodeQuantum(src), if BadPadding(src) then Some(CorruptInput(NonZeroPadding, read + |src| - 1)) else None)
  }

  // ---------- The in-place buffers ----------

  /** `buffer` with the digits `d` written over it from `at` on. */
  ghost function Written(buffer: Octets, at: nat, d: Octets): (r: Octets)
    requires at + |d| <= |buffer|
  {
    buffer[..at] + d + buffer[at + |d|..]
  }

  /** A buffer in which `d` is found from `at` on, and which is otherwise unchanged. */
  ghost predicate IsWritten(before: Octets, after: Octets, at: nat, d: Octets) {
    && |after| == |before|
    && at + |d| <= |before|
    && (forall i :: 0 <= i < |d| ==> after[at + i] == d[i])
    && (forall i :: 0 <= i < |before| && !(at <= i < at + |d|) ==> after[i] == before[i])
  }

  lemma IsWrittenUnique(before: Octets, after: Octets, at: nat, d: Octets)
    requires IsWritten(before, after, at, d)
    ensures after == Written(before, at, d)
  {
  }

  /** The first two cases of the switch of Encode: the digits of the fifth and fourth byte. */
  method WriteUpperDigits(dst: array<bv8>, at: nat, src: Octets) returns (carry: bv8)
    requires |src| >= 4 ==> at + 7 <= dst.Length
    requires |src| >= 5 ==> at + 8 <= dst.Length
    modifies dst
    ensures var s := Quantum(src);
            && carry == Carry4(s[3])
            && (|src| >= 5 ==> dst[at + 7] == Digit7(s[4]))
            && (|src| >= 4 ==> dst[at + 6] == Digit6(Carry6(s[4]), s[3]) && dst[at + 5] == Digit5(s[3]))
    ensures forall i :: 0 <= i < dst.Length && (i < at + 5 || i >= at + 8 || |src| < 4 || (i == at + 7 && |src| < 5)) ==>
      dst[i] == old(dst[i])
  {
    NoCarryFromZero();
    hide Digit5, Digit6, Digit7, Carry4, Carry6;
    carry := 0;
    if |src| >= 5 {
      dst[at + 7] := Digit7(src[4]);
      carry := Carry6(src[4]);
    }
    if |src| >= 4 {
      dst[at + 6] := Digit6(carry, src[3]);
      dst[at + 5] := Digit5(src[3]);
      carry := Carry4(src[3]);
    }
  }

  /** The other three cases: the digits of the first three bytes. */
  method WriteLowerDigits(dst: array<bv8>, at: nat, src: Octets, carry4: bv8)
    requires |src| > 0 && at + 2 <= dst.Length
    requires |src| >= 2 ==> at + 4 <= dst.Length
    requires |src| >= 3 ==> at + 5 <= dst.Length
    requires carry4 == Carry4(Quantum(src)[3])
    modifies dst
    ensures var s := Quantum(src);
            && (|src| >= 3 ==> dst[at + 4] == Digit4(carry4, s[2]))
            && (|src| >= 2 ==> dst[at + 3] == Digit3(Carry3(s[2]), s[1]) && dst[at + 2] == Digit2(s[1]))
            && dst[at + 1] == Digit1(Carry1(s[1]), s[0])
            && dst[at] == Digit0(s[0])
    ensures forall i :: 0 <= i < dst.Length && (i < at || i >= at + 5 || (i >= at + 2 && |src| < 2) || (i == at + 4 && |src| < 3)) ==>
      dst[i] == old(dst[i])
  {
    NoCarryFromZero();
    hide Digit0, Digit1, Digit2, Digit3, Digit4, Carry1, Carry3;
    var carry := carry4;
    if |src| >= 3 {
      dst[at + 4] := Digit4(carry, src[2]);
      carry := Carry3(src[2]);
    }
    if |src| >= 2 {
      dst[at + 3] := Digit3(carry, src[1]);
      dst[at + 2] := Digit2(src[1]);
      carry := Carry1(src[1]);
    }
    dst[at + 1] := Digit1(carry, src[0]);
    dst[at] := Digit0(src[0]);
  }

  /** The switch of Encode: writes the digits of one quantum into `dst` from `at` on. */
  method WriteDigits(dst: array<bv8>, at: nat, src: Octets)
    requires |src| > 0 && at + EncodedLen(MinLen(|src|, 5)) <= dst.Length
    modifies dst
    ensures dst[..] == Written(old(dst[..]), at, EncodeQuantum(src))
  {
    hide Digit0, Digit1, Digit2, Digit3, Digit4, Digit5, Digit6, Digit7, Carry1, Carry3, Carry4, Carry6, Quantum, Written;
    ghost var s := Quantum(src);
    var carry := WriteUpperDigits(dst, at, src);
    WriteLowerDigits(dst, at, src, carry);
    ghost var d := Digits(s[0], s[1], s[2], s[3], s[4]);
    ghost var e := EncodeQuantum(src);
    assert e == d[..|e|];
    forall i | 0 <= i < |e|
      ensures dst[at + i] == e[i]
    {
      assert i == 0 || i == 1 || i == 2 || i == 3 || i == 4 || i == 5 || i == 6 || i == 7;
    }
    IsWrittenUnique(old(dst[..]), dst[..], at, e);
  }

  lemma EncodedStep(src: Octets)
    requires |src| > 0
    ensures EncodedLen(|src|) == |EncodeQuantum(src)| + if |src| < 5 then 0 else EncodedLen(|src| - 5)
    ensures |src| >= 5 ==> |EncodeQuantum(src)| == 8
    ensures Encoded(src) == EncodeQuantum(src) + if |src| < 5 then [] else Encoded(src[5..])
  {
    hide EncodeQuantum;
    if |src| == 5 {
      assert Encoded(src[5..]) == [];
    }
  }

  /** Encodes `src` into the first EncodedLen(|src|) elements of `dst`; the source panics if `dst` is
      shorter. */
  method Encode(dst: array<bv8>, src: Octets) returns (n: nat)
    requires EncodedLen(|src|) <= dst.Length
    modifies dst
    ensures n == EncodedLen(|src|)
    ensures dst[..n] == Encoded(src)
    ensures dst[n..] == old(dst[n..])
  {
    hide EncodeQuantum, Encoded, Written, EncodedLen;
    n := EncodedLen(|src|);
    var rest := src;
    var at := 0;
    NothingEncoded();
    while |rest| > 0
      invariant at + EncodedLen(|rest|) == n
      invariant dst[..at] + Encoded(rest) == Encoded(src)
      invariant dst[n..] == old(dst[n..])
      decreases |rest|
    {
      EncodedStep(rest);
      ghost var e, before := EncodeQuantum(rest), dst[..];
      WriteDigits(dst, at, rest);
      WrittenParts(before, at, e, n);
      assert dst[..][..at + |e|] == before[..at] + e && dst[..][n..] == before[n..];
      if |rest| < 5 {
        break;
      }
      rest := rest[5..];
      at := at + 8;
    }
  }

  lemma NothingEncoded()
    ensures Encoded([]) == [] && EncodedLen(0) == 0
  {
  }

  lemma WrittenParts(before: Octets, at: nat, d: Octets, n: nat)
    requires at + |d| <= n <= |before|
    ensures Written(before, at, d)[..at + |d|] == before[..at] + d
    ensures Written(before, at, d)[n..] == before[n..]
  {
  }

  /** The switch of Decode: writes the bytes of one quantum into `dst` from `at` on. */
  method WriteBytes(dst: array<bv8>, at: nat, src: Symbols) returns (written: nat)
    requires |src| > 0 && !BadLength(|src|) && at + DecodedLen(MinLen(|src|, 8)) <= dst.Length
    modifies dst
    ensures written == |DecodeQuantum(src)|
    ensures dst[..] == Written(old(dst[..]), at, DecodeQuantum(src))
  {
    hide Byte0, Byte1, Byte2, Byte3, Byte4, DigitQuantum, Written;
    ghost var before, e := dst[..], DecodeQuantum(src);
    assert e[0] == Byte0(src[0], src[1]);
    assert |src| >= 4 ==> |e| >= 2 && e[1] == Byte1(src[1], src[2], src[3]);
    assert |src| >= 5 ==> |e| >= 3 && e[2] == Byte2(src[3], src[4]);
    assert |src| >= 7 ==> |e| >= 4 && e[3] == Byte3(src[4], src[5], src[6]);
    assert |src| >= 8 ==> |e| == 5 && e[4] == Byte4(src[6], src[7]);
    assert |e| == if |src| >= 8 then 5 else if |src| >= 7 then 4 else if |src| >= 5 then 3 else if |src| >= 4 then 2 else 1;
    hide DecodeQuantum, DecodedLen;
    written := 0;
    if |src| >= 8 {
      dst[at + 4] := Byte4(src[6], src[7]);
      written := written + 1;
    }
    if |src| >= 7 {
      dst[at + 3] := Byte3(src[4], src[5], src[6]);
      written := written + 1;
    }
    if |src| >= 5 {
      dst[at + 2] := Byte2(src[3], src[4]);
      written := written + 1;
    }
    if |src| >= 4 {
      dst[at + 1] := Byte1(src[1], src[2], src[3]);
      written := written + 1;
    }
    dst[at] := Byte0(src[0], src[1]);
    written := written + 1;
    forall i | 0 <= i < |e|
      ensures dst[at + i] == e[i]
    {
      assert i == 0 || i == 1 || i == 2 || i == 3 || i == 4;
    }
    IsWrittenUnique(before, dst[..], at, e);
  }

  /** Decodes `src` into the first elements of `dst`; returns the number of bytes written and the
      error that stopped it, if any. The source panics if `dst` is shorter than DecodedLen(|src|). */
  method Decode(dst: array<bv8>, src: Symbols) returns (written: nat, err: Option<CorruptInput>)
    requires DecodedLen(|src|) <= dst.Length
    modifies dst
    ensures err == Decoded(src, 0).1
    ensures written == |Decoded(src, 0).0| <= DecodedLen(|src|)
    ensures dst[..written] == Decoded(src, 0).0
    ensures dst[DecodedLen(|src|)..] == old(dst[DecodedLen(|src|)..])
  {
    hide DecodeQuantum, Decoded, Written, DecodedLen;
    written := 0;
    var read := 0;
    var rest := src;
    ghost var goal, limit := Decoded(src, 0), DecodedLen(|src|);
    while |rest| > 0
      invariant written + DecodedLen(|rest|) == limit
      invariant dst[..written] + Decoded(rest, read).0 == goal.0 && Decoded(rest, read).1 == goal.1
      invariant dst[limit..] == old(dst[limit..])
      decreases |rest|
    {
      DecodedStep(rest, read);
      var n := |rest|;
      if BadLength(n) {
        return written, Some(CorruptInput(InvalidLength, read));
      }
      ghost var e, before := DecodeQuantum(rest), dst[..];
      var w := WriteBytes(dst, written, rest);
      WrittenParts(before, written, e, limit);
      assert dst[..][..written + |e|] == before[..written] + e && dst[..][limit..] == before[limit..];
      written := written + w;
      if n < 8 {
        if BadPadding(rest) {
          return written, Some(CorruptInput(NonZeroPadding, read + n - 1));
        }
        return written, None;
      }
      rest := rest[8..];
      read := read + 8;
    }
    NothingDecoded(read);
    return written, None;
  }

  lemma NothingDecoded(read: nat)
    ensures Decoded([], read) == ([], None) && DecodedLen(0) == 0
  {
  }

  lemma DecodedStep(src: Symbols, read: nat)
    requires |src| > 0
    ensures !BadLength(|src|) ==>
      DecodedLen(|src|) == |DecodeQuantum(src)| + if |src| < 8 then 0 else DecodedLen(|src| - 8)
    ensures DecodedLen(MinLen(|src|, 8)) <= DecodedLen(|src|)
    ensures Decoded(src, read) ==
      if BadLength(|src|) then ([], Some(CorruptInput(InvalidLength, read)))
      else if |src| < 8 then (DecodeQuantum(src), if BadPadding(src) then Some(CorruptInput(NonZeroPadding, read + |src| - 1)) else None)
      else (DecodeQuantum(src) + Decoded(src[8..], read + 8).0, Decoded(src[8..], read + 8).1)
  {
    hide DecodeQuantum;
  }

  // ---------- Round trips ----------

  lemma PackedDigits(s0: bv8, s1: bv8, s2: bv8, s3: bv8, s4: bv8)
    ensures var d := Digits(s0, s1, s2, s3, s4);
            && Packed(d[0], d[1], d[2], d[3], d[4], d[5], d[6], d[7]) == [s0, s1, s2, s3, s4]
            && IsSymbols(d)
  {
  }

  lemma DigitsPacked(c0: bv8, c1: bv8, c2: bv8, c3: bv8, c4: bv8, c5: bv8, c6: bv8, c7: bv8)
    requires c0 < 32 && c1 < 32 && c2 < 32 && c3 < 32 && c4 < 32 && c5 < 32 && c6 < 32 && c7 < 32
    ensures var b := Packed(c0, c1, c2, c3, c4, c5, c6, c7);
            Digits(b[0], b[1], b[2], b[3], b[4]) == [c0, c1, c2, c3, c4, c5, c6, c7]
  {
  }

  /** Bytes that are 0 give digits that are 0, and padding bits that are 0 in the digit before. */
  lemma DigitsOfShortQuantum(s0: bv8, s1: bv8, s2: bv8, s3: bv8)
    ensures var d := Digits(s0, 0, 0, 0, 0);
            d[1] & 3 == 0 && d[2] == 0 && d[3] == 0 && d[4] == 0 && d[5] == 0 && d[6] == 0 && d[7] == 0
    ensures var d := Digits(s0, s1, 0, 0, 0); d[3] & 15 == 0 && d[4] == 0 && d[5] == 0 && d[6] == 0 && d[7] == 0
    ensures var d := Digits(s0, s1, s2, 0, 0); d[4] & 1 == 0 && d[5] == 0 && d[6] == 0 && d[7] == 0
    ensures var d := Digits(s0, s1, s2, s3, 0); d[6] & 7 == 0 && d[7] == 0
  {
  }

  /** Without padding bits, the bytes past the end of a short quantum are 0. */
  lemma BytesOfShortQuantum(c0: bv8, c1: bv8, c2: bv8, c3: bv8, c4: bv8, c5: bv8, c6: bv8)
    ensures c1 & 3 == 0 ==>
      var b := Packed(c0, c1, 0, 0, 0, 0, 0, 0); b[1] == 0 && b[2] == 0 && b[3] == 0 && b[4] == 0
    ensures c3 & 15 == 0 ==> var b := Packed(c0, c1, c2, c3, 0, 0, 0, 0); b[2] == 0 && b[3] == 0 && b[4] == 0
    ensures c4 & 1 == 0 ==> var b := Packed(c0, c1, c2, c3, c4, 0, 0, 0); b[3] == 0 && b[4] == 0
    ensures c6 & 7 == 0 ==> var b := Packed(c0, c1, c2, c3, c4, c5, c6, 0); b[4] == 0
  {
  }

  lemma EncodeQuantumCases(src: Octets)
    requires |src| > 0
    ensures var n, s, e := MinLen(|src|, 5), Quantum(src), EncodeQuantum(src);
            && e + Zeros(8 - |e|) == Digits(s[0], s[1], s[2], s[3], s[4])
            && IsSymbols(e)
            && !BadLength(|e|)
            && (n < 5 ==> |e| < 8 && !BadPadding(e))
  {
    var s := Quantum(src);
    PackedDigits(s[0], s[1], s[2], s[3], s[4]);
    DigitsOfShortQuantum(s[0], s[1], s[2], s[3]);
    hide Digits, Packed, Quantum, Zeros;
    var d, e := Digits(s[0], s[1], s[2], s[3], s[4]), EncodeQuantum(src);
    assert |src| == 1 || |src| == 2 || |src| == 3 || |src| == 4 || |src| >= 5;
    assert e == d[..|e|];
    assert forall i :: |e| <= i < 8 ==> d[i] == 0;
    hide EncodeQuantum;
    assert d == d[..|e|] + Zeros(8 - |e|);
  }

  lemma DecodePadded(e: Symbols, d: Symbols)
    requires |e| <= 8 && e + Zeros(8 - |e|) == d
    ensures DecodeQuantum(e) == Packed(d[0], d[1], d[2], d[3], d[4], d[5], d[6], d[7])[..DecodedLen(|e|)]
  {
    hide Packed;
    assert DigitQuantum(e) == d;
  }

  lemma LengthsAgree(n: nat)
    requires 1 <= n <= 5
    ensures EncodedLen(n) <= 8 && DecodedLen(EncodedLen(n)) == n
  {
  }

  /** Decoding the digits of a quantum gives back its bytes. */
  lemma QuantumRoundTrip(src: Octets)
    requires |src| > 0
    ensures var d := EncodeQuantum(src);
            && DecodeQuantum(d) == src[..MinLen(|src|, 5)]
            && IsSymbols(d)
            && !BadLength(|d|)
            && (|src| < 5 ==> |d| < 8 && !BadPadding(d))
  {
    hide Digits, Packed, Zeros, EncodeQuantum, DecodeQuantum, EncodedLen, DecodedLen, BadPadding, Quantum, IsSymbols;
    var n, s := MinLen(|src|, 5), Quantum(src);
    EncodeQuantumCases(src);
    PackedDigits(s[0], s[1], s[2], s[3], s[4]);
    LengthsAgree(n);
    DecodePadded(EncodeQuantum(src), Digits(s[0], s[1], s[2], s[3], s[4]));
    assert [s[0], s[1], s[2], s[3], s[4]][..n] == src[..n];
  }

  /** Decoding the digits of any byte string gives back its bytes. */
  lemma {:induction false} DecodeEncoded(src: Octets, read: nat)
    ensures IsSymbols(Encoded(src))
    ensures Decoded(Encoded(src), read) == (src, None)
    decreases |src|
  {
    if |src| == 0 {
      NothingEncoded();
      NothingDecoded(read);
    } else if |src| < 5 {
      hide EncodeQuantum, DecodeQuantum, Encoded, Decoded, BadPadding, BadLength, EncodedLen, DecodedLen;
      QuantumRoundTrip(src);
      EncodedStep(src);
      DecodedStep(EncodeQuantum(src), read);
      assert EncodeQuantum(src) + [] == EncodeQuantum(src) && src[..|src|] == src;
    } else {
      DecodeEncoded(src[5..], read + 8);
      DecodeEncodedLong(src, read);
    }
  }

  lemma DecodeEncodedLong(src: Octets, read: nat)
    requires |src| >= 5
    requires IsSymbols(Encoded(src[5..])) && Decoded(Encoded(src[5..]), read + 8) == (src[5..], None)
    ensures IsSymbols(Encoded(src)) && Decoded(Encoded(src), read) == (src, None)
  {
    QuantumRoundTrip(src);
    EncodedStep(src);
    LongEnough(|src|);
    LongIsNotBad(|Encoded(src)|);
    hide EncodeQuantum, DecodeQuantum, Encoded, Decoded, BadPadding, BadLength, EncodedLen, DecodedLen;
    var e, rest := EncodeQuantum(src), Encoded(src[5..]);
    var d := e + rest;
    assert d[..8] == e && d[8..] == rest;
    DecodedStep(d, read);
    DecodeQuantumOfPrefix(d, e);
    assert src == src[..5] + src[5..];
  }

  lemma LongEnough(n: nat)
    requires n >= 5
    ensures EncodedLen(n) >= 8
  {
  }

  lemma DecodeQuantumOfPrefix(d: Symbols, e: Symbols)
    requires |d| >= 8 && e == d[..8]
    ensures DecodeQuantum(d) == DecodeQuantum(e)
  {
    assert DigitQuantum(d) == DigitQuantum(e);
  }

  lemma QuantumOfBytes(e: Octets, b: Octets)
    requires |b| == 5 && |e| <= 5 && e == b[..|e|]
    requires forall i :: |e| <= i < 5 ==> b[i] == 0
    ensures Quantum(e) == b
  {
  }

  lemma DecodeQuantumCases(src: Symbols)
    requires |src| > 0 && IsSymbols(src) && !BadLength(|src|) && (|src| < 8 ==> !BadPadding(src))
    ensures var c, e := DigitQuantum(src), DecodeQuantum(src);
            && 1 <= |e| <= 5
            && (|e| == 5 <==> |src| >= 8)
            && Quantum(e) == Packed(c[0], c[1], c[2], c[3], c[4], c[5], c[6], c[7])
            && IsSymbols(c)
            && EncodedLen(|e|) == MinLen(|src|, 8)
  {
    var c := DigitQuantum(src);
    BytesOfShortQuantum(c[0], c[1], c[2], c[3], c[4], c[5], c[6]);
    hide Packed, Zeros, DigitQuantum;
    var b := Packed(c[0], c[1], c[2], c[3], c[4], c[5], c[6], c[7]);
    assert |src| == 2 || |src| == 4 || |src| == 5 || |src| == 7 || |src| >= 8;
    var e := DecodeQuantum(src);
    assert e == b[..|e|];
    hide DecodeQuantum, Quantum;
    QuantumOfBytes(e, b);
  }

  /** Encoding the bytes of a well-formed quantum gives back its digits. */
  lemma QuantumInverse(src: Symbols)
    requires |src| > 0 && IsSymbols(src) && !BadLength(|src|) && (|src| < 8 ==> !BadPadding(src))
    ensures EncodeQuantum(DecodeQuantum(src)) == src[..MinLen(|src|, 8)]
    ensures |src| >= 8 ==> |DecodeQuantum(src)| == 5
    ensures |src| < 8 ==> 1 <= |DecodeQuantum(src)| < 5
  {
    hide Digits, Packed, DigitQuantum, DecodeQuantum, Quantum, EncodedLen, DecodedLen;
    DecodeQuantumCases(src);
    hide BadPadding, BadLength;
    var c := DigitQuantum(src);
    DigitsPacked(c[0], c[1], c[2], c[3], c[4], c[5], c[6], c[7]);
    assert [c[0], c[1], c[2], c[3], c[4], c[5], c[6], c[7]][..MinLen(|src|, 8)] == src[..MinLen(|src|, 8)];
  }

  /** Whatever digits decode without error are the encoding of the result. */
  lemma {:induction false} EncodeDecoded(src: Symbols, read: nat)
    requires IsSymbols(src) && Decoded(src, read).1.None?
    ensures Encoded(Decoded(src, read).0) == src
    decreases |src|
  {
    if |src| == 0 {
      NothingEncoded();
      NothingDecoded(read);
    } else {
      DecodedStep(src, read);
      QuantumInverse(src);
      hide EncodeQuantum, DecodeQuantum, Encoded, Decoded;
      var e := DecodeQuantum(src);
      if |src| < 8 {
        EncodedStep(e);
        assert src[..|src|] == src;
      } else {
        var rest := Decoded(src[8..], read + 8).0;
        EncodeDecoded(src[8..], read + 8);
        EncodedStep(e + rest);
        EncodeQuantumOfPrefix(e + rest, e);
        assert (e + rest)[5..] == rest;
        assert src == src[..8] + src[8..];
      }
    }
  }

  lemma EncodeQuantumOfPrefix(b: Octets, e: Octets)
    requires |b| >= 5 && e == b[..5]
    ensures EncodeQuantum(b) == EncodeQuantum(e)
  {
    assert Quantum(b) == Quantum(e);
  }

  /** The digits that decode without error are exactly the encodings of byte strings; on those,
      decoding and encoding are inverse to each other. */
  lemma DecodesIffEncoding(src: Symbols)
    requires IsSymbols(src)
    ensures Decoded(src, 0).1.None? <==> exists b :: Encoded(b) == src
  {
    if Decoded(src, 0).1.None? {
      EncodeDecoded(src, 0);
    }
    if b :| Encoded(b) == src {
      DecodeEncoded(b, 0);
    }
  }

  /** The length and padding rule: no impossible length, and no bit set that belongs to no byte. */
  predicate WellFormed(src: Symbols) {
    !BadLength(|src| % 8) && !BadPadding(src[|src| - |src| % 8..])
  }

  lemma WellFormedStep(src: Symbols)
    requires |src| >= 8
    ensures WellFormed(src) <==> WellFormed(src[8..])
  {
    hide BadPadding, BadLength;
    var r := |src| % 8;
    assert |src[8..]| % 8 == r;
    assert src[8..][|src| - 8 - r..] == src[|src| - r..];
  }

  /** Decoding succeeds exactly on the digit strings that follow the length and padding rule. */
  lemma {:induction false} DecodesIffWellFormed(src: Symbols, read: nat)
    ensures Decoded(src, read).1.None? <==> WellFormed(src)
    decreases |src|
  {
    if |src| == 0 {
      NothingDecoded(read);
    } else {
      DecodedStep(src, read);
      hide Decoded, DecodeQuantum, DecodedLen;
      if |src| >= 8 {
        WellFormedStep(src);
        LongIsNotBad(|src|);
        hide WellFormed, BadLength, BadPadding;
        DecodesIffWellFormed(src[8..], read + 8);
      } else {
        assert |src| % 8 == |src| && src[0..] == src;
      }
    }
  }

  lemma LongIsNotBad(n: nat)
    requires n >= 8
    ensures !BadLength(n)
  {
  }

  // ---------- What the digits mean: the same bits in groups of five ----------

  /** Bit `i` of a byte, counted from the most significant one. */
  predicate ByteBit(b: bv8, i: nat)
    requires i < 8
  {
    match i
    case 0 => b & 128 != 0
    case 1 => b & 64 != 0
    case 2 => b & 32 != 0
    case 3 => b & 16 != 0
    case 4 => b & 8 != 0
    case 5 => b & 4 != 0
    case 6 => b & 2 != 0
    case 7 => b & 1 != 0
  }

  /** Bit `i` of a digit, counted from the most significant of its five bits. */
  predicate DigitBit(d: bv8, i: nat)
    requires i < 5
  {
    match i
    case 0 => d & 16 != 0
    case 1 => d & 8 != 0
    case 2 => d & 4 != 0
    case 3 => d & 2 != 0
    case 4 => d & 1 != 0
  }

  lemma BitsOfDigit0(s0: bv8)
    ensures DigitBit(Digit0(s0), 0) == ByteBit(s0, 0)
    ensures DigitBit(Digit0(s0), 1) == ByteBit(s0, 1)
    ensures DigitBit(Digit0(s0), 2) == ByteBit(s0, 2)
    ensures DigitBit(Digit0(s0), 3) == ByteBit(s0, 3)
    ensures DigitBit(Digit0(s0), 4) == ByteBit(s0, 4)
  {
  }

  lemma BitsOfDigit1(s0: bv8, s1: bv8)
    ensures DigitBit(Digit1(Carry1(s1), s0), 0) == ByteBit(s0, 5)
    ensures DigitBit(Digit1(Carry1(s1), s0), 1) == ByteBit(s0, 6)
    ensures DigitBit(Digit1(Carry1(s1), s0), 2) == ByteBit(s0, 7)
    ensures DigitBit(Digit1(Carry1(s1), s0), 3) == ByteBit(s1, 0)
    ensures DigitBit(Digit1(Carry1(s1), s0), 4) == ByteBit(s1, 1)
  {
  }

  lemma BitsOfDigit2(s1: bv8)
    ensures DigitBit(Digit2(s1), 0) == ByteBit(s1, 2)
    ensures DigitBit(Digit2(s1), 1) == ByteBit(s1, 3)
    ensures DigitBit(Digit2(s1), 2) == ByteBit(s1, 4)
    ensures DigitBit(Digit2(s1), 3) == ByteBit(s1, 5)
    ensures DigitBit(Digit2(s1), 4) == ByteBit(s1, 6)
  {
  }

  lemma BitsOfDigit3(s1: bv8, s2: bv8)
    ensures DigitBit(Digit3(Carry3(s2), s1), 0) == ByteBit(s1, 7)
    ensures DigitBit(Digit3(Carry3(s2), s1), 1) == ByteBit(s2, 0)
    ensures DigitBit(Digit3(Carry3(s2), s1), 2) == ByteBit(s2, 1)
    ensures DigitBit(Digit3(Carry3(s2), s1), 3) == ByteBit(s2, 2)
    ensures DigitBit(Digit3(Carry3(s2), s1), 4) == ByteBit(s2, 3)
  {
  }

  lemma BitsOfDigit4(s2: bv8, s3: bv8)
    ensures DigitBit(Digit4(Carry4(s3), s2), 0) == ByteBit(s2, 4)
    ensures DigitBit(Digit4(Carry4(s3), s2), 1) == ByteBit(s2, 5)
    ensures DigitBit(Digit4(Carry4(s3), s2), 2) == ByteBit(s2, 6)
    ensures DigitBit(Digit4(Carry4(s3), s2), 3) == ByteBit(s2, 7)
    ensures DigitBit(Digit4(Carry4(s3), s2), 4) == ByteBit(s3, 0)
  {
  }

  lemma BitsOfDigit5(s3: bv8)
    ensures DigitBit(Digit5(s3), 0) == ByteBit(s3, 1)
    ensures DigitBit(Digit5(s3), 1) == ByteBit(s3, 2)
    ensures DigitBit(Digit5(s3), 2) == ByteBit(s3, 3)
    ensures DigitBit(Digit5(s3), 3) == ByteBit(s3, 4)
    ensures DigitBit(Digit5(s3), 4) == ByteBit(s3, 5)
  {
  }

  lemma BitsOfDigit6(s3: bv8, s4: bv8)
    ensures DigitBit(Digit6(Carry6(s4), s3), 0) == ByteBit(s3, 6)
    ensures DigitBit(Digit6(Carry6(s4), s3), 1) == ByteBit(s3, 7)
    ensures DigitBit(Digit6(Carry6(s4), s3), 2) == ByteBit(s4, 0)
    ensures DigitBit(Digit6(Carry6(s4), s3), 3) == ByteBit(s4, 1)
    ensures DigitBit(Digit6(Carry6(s4), s3), 4) == ByteBit(s4, 2)
  {
  }

  lemma BitsOfDigit7(s4: bv8)
    ensures DigitBit(Digit7(s4), 0) == ByteBit(s4, 3)
    ensures DigitBit(Digit7(s4), 1) == ByteBit(s4, 4)
    ensures DigitBit(Digit7(s4), 2) == ByteBit(s4, 5)
    ensures DigitBit(Digit7(s4), 3) == ByteBit(s4, 6)
    ensures DigitBit(Digit7(s4), 4) == ByteBit(s4, 7)
  {
  }

  /** Bit `k` of a byte string, counted from the most significant bit of the first byte. */
  predicate BitOfBytes(b: Octets, k: nat)
    requires k < 8 * |b|
  {
    ByteBit(b[k / 8], k % 8)
  }

  /** Bit `k` of a digit string. */
  predicate BitOfDigits(d: Symbols, k: nat)
    requires k < 5 * |d|
  {
    DigitBit(d[k / 5], k % 5)
  }

  /** Bit `i` of digit `j` of a quantum is bit 5j + i of its bytes. */
  lemma QuantumDigitBits(s: Octets, j: nat, i: nat)
    requires |s| == 5 && j < 8 && i < 5
    ensures DigitBit(Digits(s[0], s[1], s[2], s[3], s[4])[j], i) == ByteBit(s[(5 * j + i) / 8], (5 * j + i) % 8)
  {
    hide ByteBit, DigitBit, Digit0, Digit1, Digit2, Digit3, Digit4, Digit5, Digit6, Digit7, Carry1, Carry3, Carry4, Carry6;
    assert i == 0 || i == 1 || i == 2 || i == 3 || i == 4;
    match j
    case 0 => BitsOfDigit0(s[0]);
    case 1 => BitsOfDigit1(s[0], s[1]);
    case 2 => BitsOfDigit2(s[1]);
    case 3 => BitsOfDigit3(s[1], s[2]);
    case 4 => BitsOfDigit4(s[2], s[3]);
    case 5 => BitsOfDigit5(s[3]);
    case 6 => BitsOfDigit6(s[3], s[4]);
    case 7 => BitsOfDigit7(s[4]);
  }

  /** The digits of a quantum hold the bits of its bytes, in order. */
  lemma QuantumBits(s: Octets, k: nat)
    requires |s| == 5 && k < 40
    ensures BitOfDigits(Digits(s[0], s[1], s[2], s[3], s[4]), k) == BitOfBytes(s, k)
  {
    hide ByteBit, DigitBit, Digits;
    QuantumDigitBits(s, k / 5, k % 5);
    assert 5 * (k / 5) + k % 5 == k;
  }

  lemma NoBitInZero(i: nat)
    requires i < 8
    ensures !ByteBit(0, i)
  {
  }

  lemma FirstQuantumBits(src: Octets, k: nat)
    requires |src| > 0 && k < 5 * |EncodeQuantum(src)|
    ensures k < 40
    ensures BitOfDigits(EncodeQuantum(src), k) == (k < 8 * |src| && BitOfBytes(src, k))
  {
    hide ByteBit, DigitBit, Digits;
    var s := Quantum(src);
    QuantumBits(s, k);
    NoBitInZero(k % 8);
    assert EncodeQuantum(src)[k / 5] == Digits(s[0], s[1], s[2], s[3], s[4])[k / 5];
  }

  lemma ShiftByQuantum(d: Symbols, src: Octets, k: nat)
    requires 40 <= k < 5 * |d|
    ensures BitOfDigits(d, k) == BitOfDigits(d[8..], k - 40)
    ensures k < 8 * |src| ==> BitOfBytes(src, k) == BitOfBytes(src[5..], k - 40)
  {
    hide ByteBit, DigitBit;
    assert (k - 40) / 5 == k / 5 - 8 && (k - 40) % 5 == k % 5;
    assert (k - 40) / 8 == k / 8 - 5 && (k - 40) % 8 == k % 8;
  }

  /** Encoding is repacking: the digits hold the bits of the bytes in order, most significant first,
      followed by fewer than five zero bits. */
  lemma {:induction false} EncodedBits(src: Octets, k: nat)
    requires k < 5 * |Encoded(src)|
    ensures BitOfDigits(Encoded(src), k) == (k < 8 * |src| && BitOfBytes(src, k))
    ensures 8 * |src| <= 5 * |Encoded(src)| < 8 * |src| + 5
    decreases |src|
  {
    hide BitOfDigits, BitOfBytes, EncodeQuantum;
    if |src| == 0 {
      NothingEncoded();
    } else {
      EncodedStep(src);
      hide Encoded;
      var e, d := EncodeQuantum(src), Encoded(src);
      if k < 5 * |e| {
        FirstQuantumBits(src, k);
        SameDigit(d, e, k);
      } else {
        EncodedBits(src[5..], k - 40);
        assert d[8..] == Encoded(src[5..]);
        ShiftByQuantum(d, src, k);
      }
    }
  }

  lemma SameDigit(d: Symbols, e: Symbols, k: nat)
    requires |e| <= |d| && d[..|e|] == e && k < 5 * |e|
    ensures BitOfDigits(d, k) == BitOfDigits(e, k)
  {
    assert d[k / 5] == d[..|e|][k / 5];
  }
}
