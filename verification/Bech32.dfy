/** Bech32 encoding and decoding of ASCII strings (bech32/bech32.go, after BIP 173). */
module Bech32 {
  import opened Common
  import opened Polymod
  import opened Checksum
  import opened Charset
  import Base32

  const MAX_STRING_LENGTH := 90
  const SEPARATOR: bv8 := 0x31  // '1'

  datatype Bech32Error =
    | InvalidLength
    | InvalidCharacter
    | MixedCase
    | MissingSeparator
    | InvalidSeparator
    | InvalidChecksum
    | InvalidData(error: Base32.Base32Error)

  // ---------- Characters ----------

  predicate IsUpper(c: bv8) {
    0x41 <= c <= 0x5A
  }

  predicate IsLower(c: bv8) {
    0x61 <= c <= 0x7A
  }

  function LowerChar(c: bv8): bv8 {
    if IsUpper(c) then c + 0x20 else c
  }

  function UpperChar(c: bv8): bv8 {
    if IsLower(c) then c - 0x20 else c
  }

  /** strings.ToLower on ASCII. */
  function ToLower(s: Text): (r: Text)
    ensures |r| == |s|
    ensures forall i :: 0 <= i < |s| ==> r[i] == LowerChar(s[i])
  {
    seq(|s|, i requires 0 <= i < |s| => LowerChar(s[i]))
  }

  /** strings.ToUpper on ASCII. */
  function ToUpper(s: Text): (r: Text)
    ensures |r| == |s|
    ensures forall i :: 0 <= i < |s| ==> r[i] == UpperChar(s[i])
  {
    seq(|s|, i requires 0 <= i < |s| => UpperChar(s[i]))
  }

  predicate IsAscii(s: Text) {
    forall i :: 0 <= i < |s| ==> s[i] < 128
  }

  /** US-ASCII in the range [33, 126]. */
  predicate IsValidHrpChar(c: bv8) {
    33 <= c <= 126
  }

  predicate IsValidHrp(hrp: Text) {
    forall i :: 0 <= i < |hrp| ==> IsValidHrpChar(hrp[i])
  }

  predicate HasUpper(s: Text) {
    exists i :: 0 <= i < |s| && IsUpper(s[i])
  }

  predicate HasLower(s: Text) {
    exists i :: 0 <= i < |s| && IsLower(s[i])
  }

  /** The position of the last separator, or -1. */
  function LastIndex(s: Text, c: bv8): (i: int)
    ensures -1 <= i < |s|
    ensures i >= 0 ==> s[i] == c
    ensures forall j :: i < j < |s| ==> s[j] != c
  {
    if s == [] then -1
    else if s[|s| - 1] == c then |s| - 1
    else LastIndex(s[..|s| - 1], c)
  }

  // ---------- The printer and the parser ----------

  /** The string for a valid human-readable part and data, before the choice of case. */
  function Print(hrp: Text, data: Symbols): Text
    requires IsSymbols(data)
  {
    hrp + [SEPARATOR] + EncodeText(CHARSET, data)
  }

  /** The digits of `src` followed by their checksum. */
  function Checked(hrp: Text, src: Base32.Octets): (d: Symbols)
    ensures IsSymbols(d) && |d| == Base32.EncodedLen(|src|) + CHECKSUM_LENGTH
  {
    Base32.DecodeEncoded(src, 0);
    CreateChecksumIsSymbols(hrp, Base32.Encoded(src));
    Base32.Encoded(src) + CreateChecksum(hrp, Base32.Encoded(src))
  }

  lemma CreateChecksumIsSymbols(hrp: Text, blocks: Symbols)
    ensures IsSymbols(CreateChecksum(hrp, blocks))
  {
    ChecksumUnique(hrp, blocks, ZEROS);
  }

  function Encoded(hrp: Text, src: Base32.Octets): Result<Text, Bech32Error> {
    if |hrp| + Base32.EncodedLen(|src|) + CHECKSUM_LENGTH + 1 > MAX_STRING_LENGTH then Err(InvalidLength)
    else if |hrp| < 1 then Err(InvalidLength)
    else if !IsValidHrp(hrp) then Err(InvalidCharacter)
    else if HasUpper(hrp) && HasLower(hrp) then Err(MixedCase)
    else
      var hrpLower := ToLower(hrp);
      var res := Print(hrp, Checked(hrpLower, src));
      Ok(if hrp == hrpLower then res else ToUpper(res))
  }

  /** Decodes the lower-case data part `chars` after the lower-case human-readable part `hrp`. */
  function DecodedData(hrp: Text, chars: Text): Result<(Text, Base32.Octets), Bech32Error> {
    var (data, ok) := DecodeText(CHARSET, chars);
    if !ok then Err(InvalidCharacter)
    else if |data| < CHECKSUM_LENGTH || !VerifyChecksum(hrp, data) then Err(InvalidChecksum)
    else
      var (dst, err) := Base32.Decoded(data[..|data| - CHECKSUM_LENGTH], 0);
      if err.Some? then Err(InvalidData(err.value.error)) else Ok((hrp, dst))
  }

  function Decoded(s: Text): Result<(Text, Base32.Octets), Bech32Error>
    requires IsAscii(s)
  {
    if |s| > MAX_STRING_LENGTH then Err(InvalidLength)
    else
      var hrpLen := LastIndex(s, SEPARATOR);
      if hrpLen == -1 then Err(MissingSeparator)
      else if hrpLen < 1 || hrpLen + CHECKSUM_LENGTH > |s| then Err(InvalidSeparator)
      else if !IsValidHrp(s[..hrpLen]) then Err(InvalidCharacter)
      else if HasUpper(s) && HasLower(s) then Err(MixedCase)
      else
        var lower := ToLower(s);
        DecodedData(lower[..hrpLen], lower[hrpLen + 1..])
  }

  // ---------- The imperative code ----------

  /** The first position that ToLower changes, or -1. */
  method FirstUpper(s: Text) returns (r: int)
    ensures r >= 0 <==> HasUpper(s)
    ensures r >= 0 ==> r < |s| && IsUpper(s[r]) && !HasUpper(s[..r])
    ensures r < 0 ==> r == -1
  {
    var lower := ToLower(s);
    for i := 0 to |s|
      invariant forall j :: 0 <= j < i ==> !IsUpper(s[j])
    {
      CaseChangesChar(s[i]);
      if lower[i] != s[i] {
        return i;
      }
    }
    return -1;
  }

  /** The first position that ToUpper changes, or -1. */
  method FirstLower(s: Text) returns (r: int)
    ensures r >= 0 <==> HasLower(s)
    ensures r >= 0 ==> r < |s| && IsLower(s[r]) && !HasLower(s[..r])
    ensures r < 0 ==> r == -1
  {
    var upper := ToUpper(s);
    for i := 0 to |s|
      invariant forall j :: 0 <= j < i ==> !IsLower(s[j])
    {
      CaseChangesChar(s[i]);
      if upper[i] != s[i] {
        return i;
      }
    }
    return -1;
  }

  /** Whether the case is consistent. */
  method ValidateCase(s: Text) returns (ok: bool)
    ensures ok <==> !(HasUpper(s) && HasLower(s))
  {
    var upper := FirstUpper(s);
    var lower := FirstLower(s);
    if upper < lower && upper >= 0 {
      return false;
    }
    if lower < upper && lower >= 0 {
      return false;
    }
    if upper >= 0 && lower >= 0 {
      NotBothCases(s[upper]);
    }
    return true;
  }

  lemma NotBothCases(c: bv8)
    ensures !(IsUpper(c) && IsLower(c))
  {
  }

  lemma CaseChangesChar(c: bv8)
    ensures LowerChar(c) != c <==> IsUpper(c)
    ensures UpperChar(c) != c <==> IsLower(c)
  {
  }

  method Encode(charset: Encoding, hrp: Text, src: Base32.Octets) returns (r: Result<Text, Bech32Error>)
    requires charset.For(CHARSET)
    ensures r == Encoded(hrp, src)
  {
    var dataLen := Base32.EncodedLen(|src|);
    if |hrp| + dataLen + CHECKSUM_LENGTH + 1 > MAX_STRING_LENGTH {
      return Err(InvalidLength);
    }
    if |hrp| < 1 {
      return Err(InvalidLength);
    }
    for i := 0 to |hrp|
      invariant forall j :: 0 <= j < i ==> IsValidHrpChar(hrp[j])
    {
      if !IsValidHrpChar(hrp[i]) {
        return Err(InvalidCharacter);
      }
    }
    var sameCase := ValidateCase(hrp);
    if !sameCase {
      return Err(MixedCase);
    }
    var hrpLower := ToLower(hrp);
    var data := FillData(hrpLower, src);
    var chars := charset.Encode(CHARSET, data[..]);
    var res := hrp + [SEPARATOR];
    res := res + chars;
    if hrp == hrpLower {
      return Ok(res);
    }
    return Ok(ToUpper(res));
  }

  /** Fills the buffer of Encode with the digits of `src` and copies the checksum behind them. */
  method FillData(hrpLower: Text, src: Base32.Octets) returns (data: array<bv8>)
    ensures fresh(data) && data[..] == Checked(hrpLower, src)
  {
    hide Base32.Encoded, CreateChecksum;
    var dataLen := Base32.EncodedLen(|src|);
    data := new bv8[dataLen + CHECKSUM_LENGTH];
    var n := Base32.Encode(data, src);
    var checksum := Bech32CreateChecksum(hrpLower, data[..dataLen]);
    ghost var digits := Base32.Encoded(src);
    for i := 0 to CHECKSUM_LENGTH
      invariant data[..dataLen] == digits
      invariant checksum[..] == CreateChecksum(hrpLower, digits)
      invariant forall j :: 0 <= j < i ==> data[dataLen + j] == checksum[j]
    {
      data[dataLen + i] := checksum[i];
    }
    assert data[dataLen..] == checksum[..];
    assert data[..] == data[..dataLen] + data[dataLen..];
  }

  method Decode(charset: Encoding, s: Text) returns (r: Result<(Text, Base32.Octets), Bech32Error>)
    requires charset.For(CHARSET) && IsAscii(s)
    ensures r == Decoded(s)
  {
    hide HasUpper, HasLower, DecodeText, VerifyChecksum, Base32.Decoded, LastIndex, IsValidHrpChar, IsAscii;
    if |s| > MAX_STRING_LENGTH {
      return Err(InvalidLength);
    }
    var hrpLen := LastIndex(s, SEPARATOR);
    if hrpLen == -1 {
      return Err(MissingSeparator);
    }
    if hrpLen < 1 || hrpLen + CHECKSUM_LENGTH > |s| {
      return Err(InvalidSeparator);
    }
    for i := 0 to hrpLen
      invariant forall j :: 0 <= j < i ==> IsValidHrpChar(s[j])
    {
      if !IsValidHrpChar(s[i]) {
        assert !IsValidHrpChar(s[..hrpLen][i]);
        return Err(InvalidCharacter);
      }
    }
    var sameCase := ValidateCase(s);
    if !sameCase {
      return Err(MixedCase);
    }
    var lower := ToLower(s);
    var hrp := lower[..hrpLen];
    var chars := lower[hrpLen + 1..];
    var data, ok := charset.Decode(CHARSET, chars);
    if !ok {
      return Err(InvalidCharacter);
    }
    if |data| < CHECKSUM_LENGTH {
      return Err(InvalidChecksum);
    }
    var verified := Bech32VerifyChecksum(hrp, data);
    if !verified {
      return Err(InvalidChecksum);
    }
    data := data[..|data| - CHECKSUM_LENGTH];
    var dst := new bv8[Base32.DecodedLen(|data|)];
    var written, err := Base32.Decode(dst, data);
    if err.Some? {
      return Err(InvalidData(err.value.error));
    }
    assert dst[..written] == dst[..];
    return Ok((hrp, dst[..]));
  }

  // ---------- Round trips ----------

  lemma CaseOfChar(c: bv8)
    ensures LowerChar(LowerChar(c)) == LowerChar(c) == LowerChar(UpperChar(c))
    ensures !IsUpper(LowerChar(c)) && !IsLower(UpperChar(c))
    ensures IsValidHrpChar(c) ==> IsValidHrpChar(LowerChar(c)) && IsValidHrpChar(UpperChar(c))
    ensures LowerChar(c) == SEPARATOR <==> c == SEPARATOR
    ensures UpperChar(c) == SEPARATOR <==> c == SEPARATOR
    ensures c < 128 ==> LowerChar(c) < 128 && UpperChar(c) < 128
    ensures IsValidHrpChar(c) ==> c < 128
  {
  }

  /** Changing the case of a string: what stays and what is gone. */
  lemma CaseOfText(s: Text)
    ensures ToLower(ToLower(s)) == ToLower(s) == ToLower(ToUpper(s))
    ensures !HasUpper(ToLower(s)) && !HasLower(ToUpper(s))
    ensures IsValidHrp(s) ==> IsValidHrp(ToLower(s)) && IsValidHrp(ToUpper(s)) && IsAscii(s)
    ensures IsAscii(s) ==> IsAscii(ToLower(s)) && IsAscii(ToUpper(s))
    ensures ToLower(s) == s <==> !HasUpper(s)
  {
    forall c: bv8
      ensures LowerChar(LowerChar(c)) == LowerChar(c) == LowerChar(UpperChar(c))
      ensures !IsUpper(LowerChar(c)) && !IsLower(UpperChar(c))
      ensures IsValidHrpChar(c) ==> IsValidHrpChar(LowerChar(c)) && IsValidHrpChar(UpperChar(c))
      ensures c < 128 ==> LowerChar(c) < 128 && UpperChar(c) < 128
      ensures IsValidHrpChar(c) ==> c < 128
      ensures LowerChar(c) == c <==> !IsUpper(c)
    {
      CaseOfChar(c);
      CaseChangesChar(c);
    }
    hide LowerChar, UpperChar, IsUpper, IsLower, IsValidHrpChar;
    if !HasUpper(s) {
      assert ToLower(s) == s;
    } else {
      var i :| 0 <= i < |s| && IsUpper(s[i]);
      assert ToLower(s)[i] != s[i];
    }
  }

  lemma AlphabetChars0(k: nat)
    requires 0 <= k < 8
    ensures !IsUpper(CHARSET[k]) && CHARSET[k] != SEPARATOR && CHARSET[k] < 128
  {
    assert k == 0 || k == 1 || k == 2 || k == 3 || k == 4 || k == 5 || k == 6 || k == 7;
  }

  lemma AlphabetChars1(k: nat)
    requires 8 <= k < 16
    ensures !IsUpper(CHARSET[k]) && CHARSET[k] != SEPARATOR && CHARSET[k] < 128
  {
    assert k == 8 || k == 9 || k == 10 || k == 11 || k == 12 || k == 13 || k == 14 || k == 15;
  }

  lemma AlphabetChars2(k: nat)
    requires 16 <= k < 24
    ensures !IsUpper(CHARSET[k]) && CHARSET[k] != SEPARATOR && CHARSET[k] < 128
  {
    assert k == 16 || k == 17 || k == 18 || k == 19 || k == 20 || k == 21 || k == 22 || k == 23;
  }

  lemma AlphabetChars3(k: nat)
    requires 24 <= k < 32
    ensures !IsUpper(CHARSET[k]) && CHARSET[k] != SEPARATOR && CHARSET[k] < 128
  {
    assert k == 24 || k == 25 || k == 26 || k == 27 || k == 28 || k == 29 || k == 30 || k == 31;
  }

  /** The characters of the alphabet are lower case or digits, ASCII, and not the separator. */
  lemma AlphabetChars(k: nat)
    requires k < 32
    ensures !IsUpper(CHARSET[k]) && CHARSET[k] != SEPARATOR && CHARSET[k] < 128
  {
    hide IsUpper;
    if k < 8 {
      AlphabetChars0(k);
    } else if k < 16 {
      AlphabetChars1(k);
    } else if k < 24 {
      AlphabetChars2(k);
    } else {
      AlphabetChars3(k);
    }
  }

  lemma {:induction false} DataChars(d: Symbols, i: nat)
    requires IsSymbols(d) && i < |d|
    ensures var c := EncodeText(CHARSET, d)[i]; !IsUpper(c) && c != SEPARATOR && c < 128
  {
    var n := |d| - 1;
    if i == n {
      BelowThirtyTwo(d[n]);
      AlphabetChars(d[n] as int);
    } else {
      DataChars(d[..n], i);
    }
  }

  /** Where the parts of a printed string are found. */
  lemma PartsOfPrint(hrp: Text, data: Symbols)
    requires IsSymbols(data)
    ensures var p := Print(hrp, data);
            && |p| == |hrp| + 1 + |data|
            && p[..|hrp|] == hrp
            && p[|hrp| + 1..] == EncodeText(CHARSET, data)
            && LastIndex(p, SEPARATOR) == |hrp|
            && (HasUpper(p) ==> HasUpper(hrp))
            && ToLower(p)[|hrp| + 1..] == EncodeText(CHARSET, data)
            && (IsAscii(hrp) ==> IsAscii(p))
  {
    hide EncodeText, IsUpper, LastIndex;
    var p, chars := Print(hrp, data), EncodeText(CHARSET, data);
    forall i | 0 <= i < |data|
      ensures !IsUpper(chars[i]) && chars[i] != SEPARATOR && chars[i] < 128 && p[|hrp| + 1 + i] == chars[i]
    {
      DataChars(data, i);
    }
    var last := LastIndex(p, SEPARATOR);
    assert p[|hrp|] == SEPARATOR;
    assert last <= |hrp|;
    if HasUpper(p) {
      var i :| 0 <= i < |p| && IsUpper(p[i]);
      assert !IsUpper(SEPARATOR) by { NoUpperSeparator(); }
      assert p[i] == hrp[i];
    }
    LowerOfChars(p, |hrp| + 1, chars);
  }

  lemma NoUpperSeparator()
    ensures !IsUpper(SEPARATOR)
  {
  }

  lemma LowerOfChars(p: Text, n: nat, chars: Text)
    requires n <= |p| && p[n..] == chars && !HasUpper(chars)
    ensures ToLower(p)[n..] == chars
  {
    CaseOfText(chars);
    assert ToLower(p)[n..] == ToLower(chars);
  }

  /** Changing the case moves no separator. */
  lemma SeparatorStays(p: Text)
    ensures LastIndex(ToLower(p), SEPARATOR) == LastIndex(p, SEPARATOR) == LastIndex(ToUpper(p), SEPARATOR)
  {
    forall c: bv8
      ensures LowerChar(c) == SEPARATOR <==> c == SEPARATOR
      ensures UpperChar(c) == SEPARATOR <==> c == SEPARATOR
    {
      CaseOfChar(c);
    }
    hide LowerChar, UpperChar;
  }

  lemma CaseOfPrefix(p: Text, n: nat)
    requires n <= |p|
    ensures ToLower(p)[..n] == ToLower(p[..n]) && ToUpper(p)[..n] == ToUpper(p[..n])
  {
  }

  /** A printed string, in either case, has the parts it was printed from. */
  lemma PartsOfEncoded(hrp: Text, data: Symbols, s: Text)
    requires IsSymbols(data) && IsValidHrp(hrp)
    requires s == (if hrp == ToLower(hrp) then Print(hrp, data) else ToUpper(Print(hrp, data)))
    ensures IsAscii(s) && |s| == |hrp| + 1 + |data|
    ensures LastIndex(s, SEPARATOR) == |hrp|
    ensures IsValidHrp(s[..|hrp|])
    ensures !(HasUpper(s) && HasLower(s))
    ensures ToLower(s)[..|hrp|] == ToLower(hrp)
    ensures ToLower(s)[|hrp| + 1..] == EncodeText(CHARSET, data)
  {
    PartsOfPrint(hrp, data);
    hide EncodeText, LastIndex, Print, IsValidHrp, IsAscii, HasUpper, HasLower;
    var p := Print(hrp, data);
    CaseOfText(hrp);
    CaseOfText(p);
    SeparatorStays(p);
    CaseOfPrefix(p, |hrp|);
  }

  /** The data part made for `src` is read as `src`. */
  lemma DecodedDataOfChecked(hrp: Text, src: Base32.Octets)
    ensures DecodedData(hrp, EncodeText(CHARSET, Checked(hrp, src))) == Ok((hrp, src))
  {
    var d, data := Base32.Encoded(src), Checked(hrp, src);
    var c := CreateChecksum(hrp, d);
    DecodeEncodedText(data);
    Base32.DecodeEncoded(src, 0);
    CreateChecksumIsSymbols(hrp, d);
    ChecksumUnique(hrp, d, c);
    assert data == d + c;
    hide EncodeText, DecodeText, CreateChecksum, VerifyChecksum, Base32.Encoded, Base32.Decoded, Checked;
    assert data[..|data| - CHECKSUM_LENGTH] == d;
  }

  /** What was encoded is decoded again: the human-readable part in lower case and the same data. */
  lemma DecodeInvertsEncode(hrp: Text, src: Base32.Octets)
    requires Encoded(hrp, src).Ok?
    ensures IsAscii(Encoded(hrp, src).value)
    ensures Decoded(Encoded(hrp, src).value) == Ok((ToLower(hrp), src))
  {
    hide EncodeText, DecodedData, Checked, Print, LastIndex, HasUpper, HasLower, IsValidHrp, ToUpper;
    var s, lower := Encoded(hrp, src).value, ToLower(hrp);
    PartsOfEncoded(hrp, Checked(lower, src), s);
    DecodedDataOfChecked(lower, src);
  }

  /** An accepted data part is the one made for the data it is read as. */
  lemma CheckedOfDecodedData(hrp: Text, chars: Text)
    requires DecodedData(hrp, chars).Ok?
    ensures DecodedData(hrp, chars).value.0 == hrp
    ensures var src := DecodedData(hrp, chars).value.1;
            && EncodeText(CHARSET, Checked(hrp, src)) == chars
            && |chars| == Base32.EncodedLen(|src|) + CHECKSUM_LENGTH
  {
    var data := DecodeText(CHARSET, chars).0;
    EncodeDecodedText(chars);
    var d, c := data[..|data| - CHECKSUM_LENGTH], data[|data| - CHECKSUM_LENGTH..];
    assert data == d + c;
    ChecksumUnique(hrp, d, c);
    Base32.EncodeDecoded(d, 0);
    hide EncodeText, DecodeText, CreateChecksum, VerifyChecksum, Base32.Encoded, Base32.Decoded;
    assert Checked(hrp, DecodedData(hrp, chars).value.1) == data;
  }

  /** What is decoded is encoded to the same string again, in lower case. */
  lemma EncodeInvertsDecode(s: Text)
    requires IsAscii(s) && Decoded(s).Ok?
    ensures Encoded(Decoded(s).value.0, Decoded(s).value.1) == Ok(ToLower(s))
  {
    hide EncodeText, DecodedData, Checked, LastIndex, HasUpper, HasLower, IsValidHrp, ToUpper, IsAscii, Base32.EncodedLen;
    var n, lower := LastIndex(s, SEPARATOR), ToLower(s);
    CheckedOfDecodedData(lower[..n], lower[n + 1..]);
    LowerHrp(s, n);
    CaseOfChar(s[n]);
    assert lower == lower[..n] + [SEPARATOR] + lower[n + 1..];
  }

  lemma LowerHrp(s: Text, n: nat)
    requires n < |s| && IsValidHrp(s[..n])
    ensures var hrp := ToLower(s)[..n];
            IsValidHrp(hrp) && !HasUpper(hrp) && ToLower(hrp) == hrp
  {
    CaseOfText(s[..n]);
    assert ToLower(s)[..n] == ToLower(s[..n]);
  }

  // ---------- What is encoded and what is rejected ----------

  /** Some character of the string is in this range. */
  ghost predicate HasIn(s: Text, low: bv8, high: bv8) {
    exists i :: 0 <= i < |s| && low <= s[i] <= high
  }

  /** Every character of the string is in this range. */
  ghost predicate AllIn(s: Text, low: bv8, high: bv8) {
    forall i :: 0 <= i < |s| ==> low <= s[i] <= high
  }

  /** Both 'A' to 'Z' and 'a' to 'z' occur. */
  ghost predicate MixesCases(s: Text) {
    HasIn(s, 0x41, 0x5A) && HasIn(s, 0x61, 0x7A)
  }

  lemma MixesCasesIs(s: Text)
    ensures HasUpper(s) <==> HasIn(s, 0x41, 0x5A)
    ensures HasLower(s) <==> HasIn(s, 0x61, 0x7A)
    ensures IsValidHrp(s) <==> AllIn(s, 33, 126)
  {
  }

  /** Encoding succeeds exactly for human-readable parts of at least one character, all of them printable
      US-ASCII, in one case, if part, separator, digits and checksum take at most 90 characters; every
      error is that of the first condition that fails. */
  lemma EncodedMeans(hrp: Text, src: Base32.Octets)
    ensures
      var length := |hrp| + 1 + (8 * |src| + 4) / 5 + 6;
      var r := Encoded(hrp, src);
      if |hrp| == 0 || length > 90 then r == Err(InvalidLength)
      else if !AllIn(hrp, 33, 126) then r == Err(InvalidCharacter)
      else if MixesCases(hrp) then r == Err(MixedCase)
      else r.Ok? && |r.value| == length
  {
    hide Checked, Print, EncodeText, HasUpper, HasLower, IsValidHrp, HasIn, AllIn, ToLower, ToUpper;
    MixesCasesIs(hrp);
    EncodedLength(|src|);
    if Encoded(hrp, src).Ok? {
      PartsOfEncoded(hrp, Checked(ToLower(hrp), src), Encoded(hrp, src).value);
    }
  }

  lemma EncodedLength(n: nat)
    ensures Base32.EncodedLen(n) == (8 * n + 4) / 5
  {
  }

  /** What is encoded starts with the human-readable part as given and '1', and is in its case: if the part
      has an upper-case letter, then so are all letters, otherwise none is. */
  lemma EncodedCase(hrp: Text, src: Base32.Octets)
    requires Encoded(hrp, src).Ok?
    ensures
      var r := Encoded(hrp, src).value;
      && |r| > |hrp| && r[..|hrp|] == hrp && r[|hrp|] == 0x31
      && (if HasIn(hrp, 0x41, 0x5A) then !HasIn(r, 0x61, 0x7A) else !HasIn(r, 0x41, 0x5A))
  {
    hide Checked, EncodeText, HasIn, AllIn, IsValidHrp, LastIndex;
    var r, lower := Encoded(hrp, src).value, ToLower(hrp);
    var data := Checked(lower, src);
    PartsOfPrint(hrp, data);
    var p := Print(hrp, data);
    CaseOfText(hrp);
    CaseOfText(p);
    MixesCasesIs(hrp);
    MixesCasesIs(r);
    CaseOfPrefix(p, |hrp|);
    CaseOfChar(p[|hrp|]);
    if HasUpper(hrp) {
      UpperStays(hrp);
    }
    hide ToLower, ToUpper, HasUpper, HasLower;
  }

  lemma UpperStays(s: Text)
    requires !HasLower(s)
    ensures ToUpper(s) == s
  {
    forall i | 0 <= i < |s|
      ensures UpperChar(s[i]) == s[i]
    {
      CaseChangesChar(s[i]);
    }
    hide UpperChar;
  }

  /** Nothing is decoded but strings of at most 90 characters, in one case, with a printable human-readable
      part before the last '1' and at least six characters after it; what is decoded is that part in lower
      case. */
  lemma DecodedMeans(s: Text)
    requires IsAscii(s)
    ensures |s| > 90 ==> Decoded(s) == Err(InvalidLength)
    ensures MixesCases(s) ==> Decoded(s).Err?
    ensures 49 !in s ==> Decoded(s).Err?
    ensures Decoded(s).Ok? ==>
      exists n :: && 1 <= n && n + 7 <= |s| <= 90 && s[n] == 49 && AllIn(s[..n], 33, 126)
                  && 49 !in s[n + 1..] && Decoded(s).value.0 == ToLower(s[..n])
  {
    hide EncodeText, Checked, HasIn, AllIn, IsAscii, DecodeText, VerifyChecksum, ToLower;
    MixesCasesIs(s);
    if Decoded(s).Ok? {
      var n := LastIndex(s, SEPARATOR);
      MixesCasesIs(s[..n]);
      CheckedOfDecodedData(ToLower(s)[..n], ToLower(s)[n + 1..]);
      CaseOfPrefix(s, n);
      assert 49 !in s[n + 1..];
      hide LastIndex, IsValidHrp;
      assert 1 <= n && n + 7 <= |s| <= 90 && s[n] == 49 && AllIn(s[..n], 33, 126)
             && Decoded(s).value.0 == ToLower(s[..n]);
    }
  }

  lemma EncodeTextAt(d: Symbols, i: nat)
    requires IsSymbols(d) && i < |d|
    ensures |EncodeText(CHARSET, d)| == |d|
    ensures EncodeText(CHARSET, d)[i] == CHARSET[d[i] as int]
  {
    if i < |d| - 1 {
      EncodeTextAt(d[..|d| - 1], i);
    }
  }

  lemma KnownChars(checksum: Symbols, chars: Text)
    requires checksum == [10, 28, 25, 31, 20, 31] && chars == [0x32, 0x75, 0x65, 0x6C, 0x35, 0x6C]
    ensures EncodeText(CHARSET, checksum) == chars
  {
    forall i | 0 <= i < 6
      ensures |EncodeText(CHARSET, checksum)| == 6
      ensures EncodeText(CHARSET, checksum)[i] == chars[i]
    {
      EncodeTextAt(checksum, i);
      hide EncodeText;
      assert i == 0 || i == 1 || i == 2 || i == 3 || i == 4 || i == 5;
    }
    EncodeTextAt(checksum, 0);
    hide EncodeText;
  }

  lemma KnownPrint(hrp: Text, checksum: Symbols, chars: Text)
    requires |hrp| == 1 && ToLower(hrp) == [0x61]
    requires checksum == [10, 28, 25, 31, 20, 31] && chars == [0x32, 0x75, 0x65, 0x6C, 0x35, 0x6C]
    ensures Print(hrp, Checked(ToLower(hrp), [])) == hrp + [0x31] + chars
  {
    hide EncodeText, CreateChecksum, VerifyChecksum;
    KnownChecksum([0x61], checksum);
    KnownChars(checksum, chars);
    Base32.NothingEncoded();
    assert Checked(ToLower(hrp), []) == checksum;
  }

  /** The valid string "a12uel5l" of BIP 173, section "Test vectors". */
  lemma KnownLowerCase(hrp: Text, s: Text)
    requires hrp == [0x61] && s == [0x61, 0x31, 0x32, 0x75, 0x65, 0x6C, 0x35, 0x6C]
    ensures Encoded(hrp, []) == Ok(s)
  {
    hide Checked, EncodeText, Print, Base32.EncodedLen;
    var chars := [0x32, 0x75, 0x65, 0x6C, 0x35, 0x6C];
    EncodedLength(0);
    KnownPrint(hrp, [10, 28, 25, 31, 20, 31], chars);
    assert hrp + [0x31] + chars == s;
  }

  /** The valid string "A12UEL5L" of BIP 173, section "Test vectors". */
  lemma KnownUpperCase(hrp: Text, s: Text)
    requires hrp == [0x41] && s == [0x41, 0x31, 0x32, 0x55, 0x45, 0x4C, 0x35, 0x4C]
    ensures Encoded(hrp, []) == Ok(s)
  {
    hide Checked, EncodeText, Print, Base32.EncodedLen;
    var chars := [0x32, 0x75, 0x65, 0x6C, 0x35, 0x6C];
    EncodedLength(0);
    KnownPrint(hrp, [10, 28, 25, 31, 20, 31], chars);
    assert ToLower(hrp) == [0x61];
    UpperOf(hrp + [0x31] + chars, s);
  }

  lemma UpperOf(p: Text, s: Text)
    requires p == [0x41, 0x31, 0x32, 0x75, 0x65, 0x6C, 0x35, 0x6C] && s == [0x41, 0x31, 0x32, 0x55, 0x45, 0x4C, 0x35, 0x4C]
    ensures ToUpper(p) == s
  {
  }

  // ---------- Burst errors in strings ----------

  /** Two accepted data parts that differ only inside a window of six characters are equal. */
  lemma BurstErrorInData(hrp: Text, x: Text, y: Text, from: nat, to: nat)
    requires DecodedData(hrp, x).Ok? && DecodedData(hrp, y).Ok?
    requires |x| == |y| && from <= to <= |x| && to - from <= 6
    requires x[..from] == y[..from] && x[to..] == y[to..]
    ensures x == y
  {
    hide VerifyChecksum, Base32.Decoded;
    EncodeDecodedText(x);
    EncodeDecodedText(y);
    DecodeTextLocal(x, y, from, to);
    hide DecodeText, EncodeText;
    BurstErrorDetected(hrp, DecodeText(CHARSET, x).0, DecodeText(CHARSET, y).0, from, to);
  }

  /** Two accepted strings with the separator at the same place that differ, case aside, only inside a
      window of six characters of the data part are the same string, case aside. */
  lemma BurstErrorRejected(s: Text, t: Text, from: nat, to: nat)
    requires IsAscii(s) && IsAscii(t) && Decoded(s).Ok? && Decoded(t).Ok?
    requires |s| == |t| && LastIndex(s, SEPARATOR) == LastIndex(t, SEPARATOR) < from <= to <= |s| && to - from <= 6
    requires ToLower(s)[..from] == ToLower(t)[..from] && ToLower(s)[to..] == ToLower(t)[to..]
    ensures ToLower(s) == ToLower(t)
  {
    hide ToLower, LastIndex, DecodedData, HasUpper, HasLower, IsValidHrp, IsAscii;
    var n, a, b := LastIndex(s, SEPARATOR) + 1, ToLower(s), ToLower(t);
    SuffixesAgree(a, b, n, from, to);
    BurstErrorInData(a[..n - 1], a[n..], b[n..], from - n, to - n);
    SplitsAgree(a, b, n);
  }

  lemma SplitsAgree(a: Text, b: Text, n: nat)
    requires n <= |a| == |b| && a[..n] == b[..n] && a[n..] == b[n..]
    ensures a == b
  {
    assert a == a[..n] + a[n..];
    assert b == b[..n] + b[n..];
  }

  lemma SuffixesAgree(a: Text, b: Text, n: nat, from: nat, to: nat)
    requires 1 <= n <= from <= to <= |a| == |b|
    requires a[..from] == b[..from] && a[to..] == b[to..]
    ensures a[..n] == b[..n] && a[..n - 1] == b[..n - 1]
    ensures a[n..][..from - n] == b[n..][..from - n] && a[n..][to - n..] == b[n..][to - n..]
  {
    assert a[..n] == a[..from][..n] && b[..n] == b[..from][..n];
    assert a[..n - 1] == a[..from][..n - 1] && b[..n - 1] == b[..from][..n - 1];
    assert a[n..][..from - n] == a[..from][n..] && b[n..][..from - n] == b[..from][n..];
    assert a[n..][to - n..] == a[to..] && b[n..][to - n..] == b[to..];
  }

  /** Equal parts of two texts read as equal digits. */
  lemma {:induction false} DecodeTextLocal(x: Text, y: Text, from: nat, to: nat)
    requires |x| == |y| && from <= to <= |x|
    requires x[..from] == y[..from] && x[to..] == y[to..]
    requires DecodeText(CHARSET, x).1 && DecodeText(CHARSET, y).1
    ensures var d, e := DecodeText(CHARSET, x).0, DecodeText(CHARSET, y).0;
            d[..from] == e[..from] && d[to..] == e[to..]
  {
    forall i | 0 <= i < |x| && (i < from || i >= to)
      ensures DecodeText(CHARSET, x).0[i] == DecodeText(CHARSET, y).0[i]
    {
      DecodeTextAt(x, i);
      DecodeTextAt(y, i);
      assert x[i] == y[i] by {
        if i < from {
          assert x[..from][i] == y[..from][i];
        } else {
          assert x[to..][i - to] == y[to..][i - to];
        }
      }
    }
  }

  lemma {:induction false} DecodeTextAt(x: Text, i: nat)
    requires i < |x| && DecodeText(CHARSET, x).1
    ensures DecodeText(CHARSET, x).0[i] == Digit(CHARSET, x[i], 32)
  {
    hide Digit;
    if i > 0 {
      DecodeTextAt(x[1..], i - 1);
    }
  }
}
