/** Lower-case hexadecimal text (src/crypto/utils.cpp). */
module Hex {
  import opened Common

  function HexDigit(n: bv8): bv8
    requires n < 16
  {
    if n < 10 then 0x30 + n else 0x57 + n
  }

  function HexValue(ch: bv8): Option<bv8> {
    if 0x30 <= ch <= 0x39 then Some(ch - 0x30)
    else if 0x61 <= ch <= 0x66 then Some(ch - 0x57)
    else if 0x41 <= ch <= 0x46 then Some(ch - 0x37)
    else None
  }

  // Character i of the hexadecimal text of d.
  function HexCharAt(d: Bytes, i: nat): bv8
    requires i < 2 * |d|
  {
    var b := d[i / 2];
    assert b >> 4 < 16 && b & 0x0F < 16;
    if i % 2 == 0 then HexDigit(b >> 4) else HexDigit(b & 0x0F)
  }

  function ToHex(d: Bytes): (h: Bytes)
    ensures |h| == 2 * |d|
  {
    seq(2 * |d|, i requires 0 <= i < 2 * |d| => HexCharAt(d, i))
  }

  predicate AllHex(h: Bytes) {
    forall i :: 0 <= i < |h| ==> HexValue(h[i]).Some?
  }

  // The byte two hexadecimal characters stand for.
  function HexByte(hi: bv8, lo: bv8): bv8
    requires HexValue(hi).Some? && HexValue(lo).Some?
  {
    (HexValue(hi).value << 4) | HexValue(lo).value
  }

  function FromHex(h: Bytes): (r: Result<Bytes>)
    ensures r.Ok? ==> |h| == 2 * |r.value|
  {
    if |h| % 2 != 0 then Err(InvalidHexLength)
    else if !AllHex(h) then Err(InvalidHexChar)
    else Ok(seq(|h| / 2, k requires 0 <= k < |h| / 2 => HexByte(h[2 * k], h[2 * k + 1])))
  }

  method BinToHex(data: Bytes) returns (out: Bytes)
    ensures out == ToHex(data)
  {
    out := [];
    for i := 0 to |data|
      invariant out == ToHex(data)[..2 * i]
    {
      assert data[i] >> 4 < 16 && data[i] & 0x0F < 16;
      assert HexCharAt(data, 2 * i) == HexDigit(data[i] >> 4);
      assert HexCharAt(data, 2 * i + 1) == HexDigit(data[i] & 0x0F);
      out := out + [HexDigit(data[i] >> 4)];
      out := out + [HexDigit(data[i] & 0x0F)];
    }
  }

  method HexToBin(hex: Bytes) returns (r: Result<Bytes>)
    ensures r == FromHex(hex)
  {
    if |hex| % 2 != 0 {
      return Err(InvalidHexLength);
    }
    var out := new bv8[|hex| / 2];
    var i := 0;
    while i < |hex|
      invariant 0 <= i <= |hex| && i % 2 == 0
      invariant forall k :: 0 <= k < i ==> HexValue(hex[k]).Some?
      invariant forall k :: 0 <= k < i / 2 ==> out[k] == HexByte(hex[2 * k], hex[2 * k + 1])
    {
      if HexValue(hex[i]).None? || HexValue(hex[i + 1]).None? {
        return Err(InvalidHexChar);
      }
      out[i / 2] := HexByte(hex[i], hex[i + 1]);
      i := i + 2;
    }
    assert out[..] == FromHex(hex).value;
    r := Ok(out[..]);
  }

  lemma HexByteOfDigits(b: bv8)
    ensures b >> 4 < 16 && b & 0x0F < 16
    ensures HexValue(HexDigit(b >> 4)) == Some(b >> 4)
    ensures HexValue(HexDigit(b & 0x0F)) == Some(b & 0x0F)
    ensures HexByte(HexDigit(b >> 4), HexDigit(b & 0x0F)) == b
  {
  }

  // Writing and reading back gives the bytes again.
  lemma HexRoundTrip(d: Bytes)
    ensures FromHex(ToHex(d)) == Ok(d)
  {
    var h := ToHex(d);
    forall i | 0 <= i < |h| ensures HexValue(h[i]).Some? {
      HexByteOfDigits(d[i / 2]);
    }
    forall k | 0 <= k < |d| ensures FromHex(h).value[k] == d[k] {
      HexByteOfDigits(d[k]);
      assert h[2 * k] == HexDigit(d[k] >> 4) && h[2 * k + 1] == HexDigit(d[k] & 0x0F);
    }
    assert FromHex(h).value == d;
  }

  function LowerCase(ch: bv8): bv8 {
    if 0x41 <= ch <= 0x46 then ch + 0x20 else ch
  }

  lemma DigitsOfHexByte(hi: bv8, lo: bv8)
    requires HexValue(hi).Some? && HexValue(lo).Some?
    ensures HexByte(hi, lo) >> 4 < 16 && HexByte(hi, lo) & 0x0F < 16
    ensures HexDigit(HexByte(hi, lo) >> 4) == LowerCase(hi)
    ensures HexDigit(HexByte(hi, lo) & 0x0F) == LowerCase(lo)
  {
  }

  // Reading and writing back gives the text again, upper-case letters made lower-case.
  lemma HexCanonical(h: Bytes)
    requires FromHex(h).Ok?
    ensures ToHex(FromHex(h).value) == seq(|h|, i requires 0 <= i < |h| => LowerCase(h[i]))
  {
    var d := FromHex(h).value;
    forall i | 0 <= i < |h| ensures ToHex(d)[i] == LowerCase(h[i]) {
      var k := i / 2;
      DigitsOfHexByte(h[2 * k], h[2 * k + 1]);
      assert d[k] == HexByte(h[2 * k], h[2 * k + 1]);
    }
  }

  lemma ToHexInjective(a: Bytes, b: Bytes)
    requires ToHex(a) == ToHex(b)
    ensures a == b
  {
    HexRoundTrip(a);
    HexRoundTrip(b);
  }

  // "0123456789abcdef"
  const DIGITS: Bytes := [
    0x30, 0x31, 0x32, 0x33, 0x34, 0x35, 0x36, 0x37, 0x38, 0x39, 0x61, 0x62, 0x63, 0x64, 0x65, 0x66
  ]

  // The high half of a byte comes first.
  lemma DigitsOfByte(d: Bytes, i: nat)
    requires i < |d|
    ensures ToHex(d)[2 * i] == DIGITS[(d[i] / 16) as int] && ToHex(d)[2 * i + 1] == DIGITS[(d[i] % 16) as int]
  {
    HalvesOfByte(d[i]);
  }

  lemma HalvesOfByte(b: bv8)
    ensures b >> 4 < 16 && b & 0x0F < 16
    ensures HexDigit(b >> 4) == DIGITS[(b / 16) as int] && HexDigit(b & 0x0F) == DIGITS[(b % 16) as int]
  {
    assert b >> 4 == b / 16 && b & 0x0F == b % 16;
    DigitIs(b / 16);
    DigitIs(b % 16);
  }

  lemma DigitIs(n: bv8)
    requires n < 16
    ensures HexDigit(n) == DIGITS[n as int]
  {
  }

  // The digits '0' to '9', 'A' to 'F' and 'a' to 'f' are read, and an odd length is found before
  // any other character.
  lemma HexErrors(h: Bytes, ch: bv8)
    ensures HexValue(ch).Some? <==> 0x30 <= ch <= 0x39 || 0x41 <= ch <= 0x46 || 0x61 <= ch <= 0x66
    ensures FromHex(h) == Err(InvalidHexLength) <==> |h| % 2 == 1
    ensures FromHex(h) == Err(InvalidHexChar) <==> |h| % 2 == 0 && exists i :: 0 <= i < |h| && HexValue(h[i]).None?
  {
  }
}
