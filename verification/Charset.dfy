/** The character tables of bech32/chars.go. */
module Charset {
  import opened Common
  import opened Polymod

  /** A string, as the sequence of its bytes. */
  type Text = seq<bv8>

  /** "qpzry9x8gf2tvdw0s3jn54khce6mua7l" */
  const CHARSET: Text := [
    0x71, 0x70, 0x7a, 0x72, 0x79, 0x39, 0x78, 0x38, 0x67, 0x66, 0x32, 0x74, 0x76, 0x64, 0x77, 0x30,
    0x73, 0x33, 0x6a, 0x6e, 0x35, 0x34, 0x6b, 0x68, 0x63, 0x65, 0x36, 0x6d, 0x75, 0x61, 0x37, 0x6c]

  const NO_DIGIT: bv8 := 0xFF

  /** The last of the first `n` positions of `charset` that holds `c`, or NO_DIGIT. */
  function Digit(charset: Text, c: bv8, n: nat): bv8
    requires n <= |charset| <= 32
  {
    if n == 0 then NO_DIGIT
    else if charset[n - 1] == c then (n - 1) as bv8
    else Digit(charset, c, n - 1)
  }

  /** The two lookup tables of an alphabet of 32 bytes. */
  class Encoding {
    const enc: array<bv8>
    const decMap: array<bv8>

    ghost predicate For(charset: Text)
      reads enc, decMap
    {
      && |charset| == 32
      && enc[..] == charset
      && decMap.Length == 256
      && forall c: bv8 :: decMap[c as int] == Digit(charset, c, 32)
    }

    /** newEncoding; the source panics unless the alphabet has 32 bytes. */
    constructor (charset: Text)
      requires |charset| == 32
      ensures For(charset)
      ensures fresh(enc) && fresh(decMap)
    {
      enc := new bv8[32];
      decMap := new bv8[256];
      new;
      for i := 0 to 32
        invariant forall j :: 0 <= j < i ==> enc[j] == charset[j]
      {
        enc[i] := charset[i];
      }
      for i := 0 to decMap.Length
        invariant enc[..] == charset
        invariant forall j :: 0 <= j < i ==> decMap[j] == NO_DIGIT
      {
        decMap[i] := NO_DIGIT;
      }
      for i := 0 to |charset|
        invariant enc[..] == charset
        invariant forall c: bv8 :: decMap[c as int] == Digit(charset, c, i)
      {
        decMap[charset[i] as int] := i as bv8;
      }
    }

    /** Writes the character of every digit; the source panics on digits above 31. */
    method Encode(ghost charset: Text, src: Symbols) returns (dst: Text)
      requires For(charset) && IsSymbols(src)
      ensures dst == EncodeText(charset, src)
    {
      dst := [];
      for i := 0 to |src|
        invariant dst == EncodeText(charset, src[..i])
      {
        BelowThirtyTwo(src[i]);
        dst := dst + [enc[src[i] as int]];
        assert enc[..][src[i] as int] == charset[src[i] as int];
        assert src[..i + 1][..i] == src[..i];
      }
      assert src[..|src|] == src;
    }

    /** Looks up the digit of every character; stops at the first that has none. */
    method Decode(ghost charset: Text, src: Text) returns (digits: Symbols, ok: bool)
      requires For(charset)
      ensures (digits, ok) == DecodeText(charset, src)
    {
      var dst := new bv8[|src|];
      DecodeTextEmpty(charset);
      for i := 0 to |src|
        invariant var rest := DecodeText(charset, src[i..]);
          DecodeText(charset, src).0 == dst[..i] + rest.0 && DecodeText(charset, src).1 == rest.1
      {
        var d := decMap[src[i] as int];
        assert src[i..][1..] == src[i + 1..];
        if d == NO_DIGIT {
          assert DecodeText(charset, src[i..]) == ([], false);
          assert dst[..i] + [] == dst[..i];
          return dst[..i], false;
        }
        dst[i] := d;
        assert dst[..i + 1] == dst[..i] + [d];
        ghost var rest := DecodeText(charset, src[i + 1..]).0;
        assert dst[..i] + ([d] + rest) == dst[..i + 1] + rest;
      }
      assert src[|src|..] == [];
      assert dst[..|src|] + [] == dst[..];
      return dst[..], true;
    }
  }

  lemma BelowThirtyTwo(d: bv8)
    requires d < 32
    ensures d as int < 32
  {
  }

  function EncodeText(charset: Text, src: Symbols): (dst: Text)
    requires |charset| == 32 && IsSymbols(src)
    ensures |dst| == |src|
  {
    if src == [] then []
    else
      BelowThirtyTwo(src[|src| - 1]);
      EncodeText(charset, src[..|src| - 1]) + [charset[src[|src| - 1] as int]]
  }

  /** The digits of the characters before the first one outside the alphabet, and whether all are in it. */
  function DecodeText(charset: Text, src: Text): (r: (Symbols, bool))
    requires |charset| == 32
    ensures r.1 ==> |r.0| == |src|
  {
    if src == [] then ([], true)
    else
      var d := Digit(charset, src[0], 32);
      if d == NO_DIGIT then ([], false)
      else
        var rest := DecodeText(charset, src[1..]);
        ([d] + rest.0, rest.1)
  }

  lemma DecodeTextEmpty(charset: Text)
    requires |charset| == 32
    ensures DecodeText(charset, []) == ([], true)
  {
  }

  // ---------- The bech32 alphabet ----------

  /** The position of a character in the bech32 alphabet, written out; 32 for any other character. */
  ghost function Position(c: bv8): nat {
    if c == 0x71 then 0
    else if c == 0x70 then 1
    else if c == 0x7a then 2
    else if c == 0x72 then 3
    else if c == 0x79 then 4
    else if c == 0x39 then 5
    else if c == 0x78 then 6
    else if c == 0x38 then 7
    else if c == 0x67 then 8
    else if c == 0x66 then 9
    else if c == 0x32 then 10
    else if c == 0x74 then 11
    else if c == 0x76 then 12
    else if c == 0x64 then 13
    else if c == 0x77 then 14
    else if c == 0x30 then 15
    else if c == 0x73 then 16
    else if c == 0x33 then 17
    else if c == 0x6a then 18
    else if c == 0x6e then 19
    else if c == 0x35 then 20
    else if c == 0x34 then 21
    else if c == 0x6b then 22
    else if c == 0x68 then 23
    else if c == 0x63 then 24
    else if c == 0x65 then 25
    else if c == 0x36 then 26
    else if c == 0x6d then 27
    else if c == 0x75 then 28
    else if c == 0x61 then 29
    else if c == 0x37 then 30
    else if c == 0x6c then 31
    else 32
  }

  lemma SmallNumber(k: nat)
    requires k < 32
    ensures k as bv8 < 32 && (k as bv8) as int == k && k as bv8 != NO_DIGIT
  {
    assert k == 0 || k == 1 || k == 2 || k == 3 || k == 4 || k == 5 || k == 6 || k == 7
           || k == 8 || k == 9 || k == 10 || k == 11 || k == 12 || k == 13 || k == 14 || k == 15
           || k == 16 || k == 17 || k == 18 || k == 19 || k == 20 || k == 21 || k == 22 || k == 23
           || k == 24 || k == 25 || k == 26 || k == 27 || k == 28 || k == 29 || k == 30 || k == 31;
  }

  lemma PositionOfChar0(k: nat)
    requires 0 <= k < 8
    ensures Position(CHARSET[k]) == k
  {
    assert k == 0 || k == 1 || k == 2 || k == 3 || k == 4 || k == 5 || k == 6 || k == 7;
  }

  lemma PositionOfChar1(k: nat)
    requires 8 <= k < 16
    ensures Position(CHARSET[k]) == k
  {
    assert k == 8 || k == 9 || k == 10 || k == 11 || k == 12 || k == 13 || k == 14 || k == 15;
  }

  lemma PositionOfChar2(k: nat)
    requires 16 <= k < 24
    ensures Position(CHARSET[k]) == k
  {
    assert k == 16 || k == 17 || k == 18 || k == 19 || k == 20 || k == 21 || k == 22 || k == 23;
  }

  lemma PositionOfChar3(k: nat)
    requires 24 <= k < 32
    ensures Position(CHARSET[k]) == k
  {
    assert k == 24 || k == 25 || k == 26 || k == 27 || k == 28 || k == 29 || k == 30 || k == 31;
  }

  lemma PositionOfChar(k: nat)
    requires k < 32
    ensures Position(CHARSET[k]) == k
  {
    hide Position;
    if k < 8 {
      PositionOfChar0(k);
    } else if k < 16 {
      PositionOfChar1(k);
    } else if k < 24 {
      PositionOfChar2(k);
    } else {
      PositionOfChar3(k);
    }
  }

  /** The alphabet has no repeated character, so the last position of a character is the only one. */
  lemma {:induction false} DigitOfChar(k: nat, n: nat)
    requires k < n <= 32
    ensures Digit(CHARSET, CHARSET[k], n) == k as bv8
  {
    PositionOfChar(k);
    PositionOfChar(n - 1);
    hide Position;
    if k < n - 1 {
      DigitOfChar(k, n - 1);
    }
  }

  lemma {:induction false} DigitFound(charset: Text, c: bv8, n: nat) returns (k: nat)
    requires n <= |charset| <= 32 && Digit(charset, c, n) != NO_DIGIT
    ensures k < n && charset[k] == c && Digit(charset, c, n) == k as bv8
  {
    if charset[n - 1] == c {
      k := n - 1;
    } else {
      k := DigitFound(charset, c, n - 1);
    }
  }

  lemma CharOfDigit(d: bv8)
    requires d < 32
    ensures d as int < 32
    ensures Digit(CHARSET, CHARSET[d as int], 32) == d
  {
    BelowThirtyTwo(d);
    DigitOfChar(d as int, 32);
  }

  /** Reading back the text of digits gives the digits. */
  lemma {:induction false} DecodeEncodedText(d: Symbols)
    requires IsSymbols(d)
    ensures DecodeText(CHARSET, EncodeText(CHARSET, d)) == (d, true)
  {
    if d != [] {
      var n := |d| - 1;
      BelowThirtyTwo(d[n]);
      DecodeEncodedText(d[..n]);
      CharOfDigit(d[n]);
      SmallNumber(d[n] as int);
      DecodeTextAppend(EncodeText(CHARSET, d[..n]), CHARSET[d[n] as int]);
      assert d == d[..n] + [d[n]];
    }
  }

  lemma {:induction false} DecodeTextAppend(s: Text, c: bv8)
    requires DecodeText(CHARSET, s).1
    ensures var d := Digit(CHARSET, c, 32);
            DecodeText(CHARSET, s + [c])
            == if d == NO_DIGIT then (DecodeText(CHARSET, s).0, false) else (DecodeText(CHARSET, s).0 + [d], true)
  {
    hide Digit;
    if s == [] {
      assert s + [c] == [c] && [c][1..] == [];
      DecodeTextEmpty(CHARSET);
      var d := Digit(CHARSET, c, 32);
      assert [d] + [] == [] + [d];
    } else {
      DecodeTextAppend(s[1..], c);
      assert (s + [c])[1..] == s[1..] + [c];
      var d0, rest, d := Digit(CHARSET, s[0], 32), DecodeText(CHARSET, s[1..]).0, Digit(CHARSET, c, 32);
      assert [d0] + (rest + [d]) == [d0] + rest + [d];
    }
  }

  /** A text that reads as digits is the text of those digits. */
  lemma {:induction false} EncodeDecodedText(s: Text)
    requires DecodeText(CHARSET, s).1
    ensures IsSymbols(DecodeText(CHARSET, s).0)
    ensures EncodeText(CHARSET, DecodeText(CHARSET, s).0) == s
  {
    if s != [] {
      var k := DigitFound(CHARSET, s[0], 32);
      SmallNumber(k);
      hide Digit;
      EncodeDecodedText(s[1..]);
      EncodeTextPrepend(k as bv8, DecodeText(CHARSET, s[1..]).0);
    }
  }

  lemma {:induction false} EncodeTextPrepend(d: bv8, src: Symbols)
    requires d < 32 && IsSymbols(src)
    ensures IsSymbols([d] + src) && d as int < 32
    ensures EncodeText(CHARSET, [d] + src) == [CHARSET[d as int]] + EncodeText(CHARSET, src)
  {
    BelowThirtyTwo(d);
    if src == [] {
      assert [d] + src == [d];
      assert EncodeText(CHARSET, [d]) == [] + [CHARSET[d as int]];
    } else {
      var n := |src| - 1;
      EncodeTextPrepend(d, src[..n]);
      assert ([d] + src)[..n + 1] == [d] + src[..n];
      assert ([d] + src)[n + 1] == src[n];
    }
  }
}
