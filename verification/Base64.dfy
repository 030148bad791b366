/** Base64 as src/crypto/utils.cpp writes and reads it, against section 4 of RFC 4648. */
module Base64 {
  import opened Common

  const PAD: bv8 := 0x3D  // '='
  const DIGIT_ZERO: bv8 := 0x41  // 'A', the character of the value 0

  // The alphabet of table 1 of RFC 4648.
  function Letter(v: bv8): bv8
    requires v < 64
  {
    if v < 26 then 0x41 + v
    else if v < 52 then 0x61 + (v - 26)
    else if v < 62 then 0x30 + (v - 52)
    else if v == 62 then 0x2B
    else 0x2F
  }

  function LetterValue(ch: bv8): Option<bv8> {
    if 0x41 <= ch <= 0x5A then Some(ch - 0x41)
    else if 0x61 <= ch <= 0x7A then Some(ch - 0x61 + 26)
    else if 0x30 <= ch <= 0x39 then Some(ch - 0x30 + 52)
    else if ch == 0x2B then Some(62)
    else if ch == 0x2F then Some(63)
    else None
  }

  lemma LetterRoundTrip(v: bv8)
    requires v < 64
    ensures Letter(v) != PAD && LetterValue(Letter(v)) == Some(v)
  {
  }

  // The four six-bit values of a three-byte group.
  function Six1(a: bv8): (v: bv8) ensures v < 64 { (a >> 2) & 0x3F }
  function Six2(a: bv8, b: bv8): (v: bv8) ensures v < 64 { ((a & 0x03) << 4) | ((b >> 4) & 0x0F) }
  function Six3(b: bv8, c: bv8): (v: bv8) ensures v < 64 { ((b & 0x0F) << 2) | ((c >> 6) & 0x03) }
  function Six4(c: bv8): (v: bv8) ensures v < 64 { c & 0x3F }

  // The three bytes of a four-value group.
  function Out1(v0: bv8, v1: bv8): bv8 { (v0 << 2) | (v1 >> 4) }
  function Out2(v1: bv8, v2: bv8): bv8 { ((v1 & 0x0F) << 4) | (v2 >> 2) }
  function Out3(v2: bv8, v3: bv8): bv8 { ((v2 & 0x03) << 6) | v3 }

  lemma GroupRoundTrip(a: bv8, b: bv8, c: bv8)
    ensures Out1(Six1(a), Six2(a, b)) == a
    ensures Out2(Six2(a, b), Six3(b, c)) == b
    ensures Out3(Six3(b, c), Six4(c)) == c
  {
  }

  // The encoding section 4 of RFC 4648 prescribes.
  function Rfc4648(d: Bytes): Bytes {
    if |d| == 0 then []
    else if |d| == 1 then [Letter(Six1(d[0])), Letter(Six2(d[0], 0)), PAD, PAD]
    else if |d| == 2 then [Letter(Six1(d[0])), Letter(Six2(d[0], d[1])), Letter(Six3(d[1], 0)), PAD]
    else Group(d[0], d[1], d[2]) + Rfc4648(d[3..])
  }

  function Group(a: bv8, b: bv8, c: bv8): Bytes {
    [Letter(Six1(a)), Letter(Six2(a, b)), Letter(Six3(b, c)), Letter(Six4(c))]
  }

  // The text base64Encode produces: the last group always loses its fourth
  // character, and a one-byte group keeps a third one.
  function Encoded(d: Bytes): Bytes {
    if |d| == 0 then []
    else if |d| == 1 then [Letter(Six1(d[0])), Letter(Six2(d[0], 0)), DIGIT_ZERO, PAD]
    else if |d| == 2 then [Letter(Six1(d[0])), Letter(Six2(d[0], d[1])), Letter(Six3(d[1], 0)), PAD]
    else if |d| == 3 then [Letter(Six1(d[0])), Letter(Six2(d[0], d[1])), Letter(Six3(d[1], d[2])), PAD]
    else Group(d[0], d[1], d[2]) + Encoded(d[3..])
  }

  // The values of the characters before the first '='; an error when one of them is no letter.
  function Values(s: Bytes): Result<Bytes> {
    if |s| == 0 || s[0] == PAD then Ok([])
    else match LetterValue(s[0])
      case None => Err(InvalidBase64)
      case Some(v) => Prepend([v], Values(s[1..]))
  }

  function Prepend(p: Bytes, r: Result<Bytes>): Result<Bytes> {
    match r
    case Ok(t) => Ok(p + t)
    case Err(e) => Err(e)
  }

  function Unpack(v: Bytes): Bytes {
    if |v| < 2 then []
    else if |v| == 2 then [Out1(v[0], v[1])]
    else if |v| == 3 then [Out1(v[0], v[1]), Out2(v[1], v[2])]
    else [Out1(v[0], v[1]), Out2(v[1], v[2]), Out3(v[2], v[3])] + Unpack(v[4..])
  }

  function Decoded(s: Bytes): Result<Bytes> {
    var v :- Values(s);
    Ok(Unpack(v))
  }

  method Base64Encode(data: Bytes) returns (result: Bytes)
    ensures result == Encoded(data)
  {
    result := [];
    var i := 0;
    while i < |data|
      invariant 0 <= i <= |data|
      invariant result + Encoded(data[i..]) == Encoded(data)
    {
      ghost var before, rest := result, data[i..];
      var a := data[i];
      i := i + 1;
      var b: bv8 := 0;
      if i < |data| {
        b := data[i];
        i := i + 1;
      }
      var c: bv8 := 0;
      if i < |data| {
        c := data[i];
        i := i + 1;
      }
      var c1, c2 := Letter(Six1(a)), Letter(Six2(a, b));
      var c3 := if i - 1 < |data| then Letter(Six3(b, c)) else PAD;
      var c4 := if i < |data| then Letter(Six4(c)) else PAD;
      result := result + [c1];
      result := result + [c2];
      result := result + [c3];
      result := result + [c4];
      EncodeTurn(rest, data[i..], c1, c2, c3, c4);
      FourPushes(before, c1, c2, c3, c4, Encoded(data[i..]));
    }
  }

  lemma FourPushes(r: Bytes, c1: bv8, c2: bv8, c3: bv8, c4: bv8, t: Bytes)
    ensures r + [c1] + [c2] + [c3] + [c4] + t == r + ([c1, c2, c3, c4] + t)
  {
    assert r + [c1] + [c2] + [c3] + [c4] == r + [c1, c2, c3, c4];
  }

  // One turn of the encoding loop produces one group of characters.
  lemma EncodeTurn(rest: Bytes, after: Bytes, c1: bv8, c2: bv8, c3: bv8, c4: bv8)
    requires |rest| > 0 && after == rest[if |rest| < 3 then |rest| else 3..]
    requires
      var b := if |rest| > 1 then rest[1] else 0;
      var c := if |rest| > 2 then rest[2] else 0;
      && c1 == Letter(Six1(rest[0])) && c2 == Letter(Six2(rest[0], b)) && c3 == Letter(Six3(b, c))
      && c4 == if |rest| > 3 then Letter(Six4(c)) else PAD
    ensures Encoded(rest) == [c1, c2, c3, c4] + Encoded(after)
  {
    assert Letter(Six3(0, 0)) == DIGIT_ZERO;
    if |rest| <= 3 {
      assert after == [];
      assert Encoded(rest) == [c1, c2, c3, c4];
      assert [c1, c2, c3, c4] + [] == [c1, c2, c3, c4];
    } else {
      assert Group(rest[0], rest[1], rest[2]) == [c1, c2, c3, c4];
    }
  }

  // Up to four letters from position start on.
  method ReadGroup(base64: Bytes, start: nat) returns (enc: Result<Bytes>, i: nat)
    requires start < |base64| && base64[start] != PAD
    ensures enc.Err? ==> Values(base64[start..]) == Err(InvalidBase64) && enc.error == InvalidBase64
    ensures start <= i <= |base64|
    ensures enc.Ok? ==>
      0 < |enc.value| == i - start <= 4 && Values(base64[start..]) == Prepend(enc.value, Values(base64[i..]))
    ensures enc.Ok? && |enc.value| < 4 ==> i == |base64| || base64[i] == PAD
  {
    var values: Bytes := [];
    i := start;
    PrependNothing(Values(base64[start..]));
    while |values| < 4 && i < |base64| && base64[i] != PAD
      invariant start <= i <= |base64| && |values| == i - start <= 4
      invariant Values(base64[start..]) == Prepend(values, Values(base64[i..]))
      decreases 4 - |values|
    {
      ghost var here := base64[i..];
      var v := LetterValue(base64[i]);
      if v.None? {
        return Err(InvalidBase64), i;
      }
      i := i + 1;
      assert here[1..] == base64[i..];
      PrependTwice(values, [v.value], Values(base64[i..]));
      values := values + [v.value];
    }
    enc := Ok(values);
  }

  // The bytes of one group of values; a single value gives none.
  method WriteGroup(enc: Bytes) returns (out: Bytes)
    requires 2 <= |enc| <= 4
    ensures out == Unpack(enc)
  {
    out := [Out1(enc[0], enc[1])];
    if |enc| >= 3 {
      out := out + [Out2(enc[1], enc[2])];
    }
    if |enc| >= 4 {
      out := out + [Out3(enc[2], enc[3])];
      assert Unpack(enc[4..]) == [];
    }
  }

  method Base64Decode(base64: Bytes) returns (r: Result<Bytes>)
    ensures r == Decoded(base64)
  {
    var result: Bytes := [];
    var i := 0;
    assert base64[0..] == base64;
    PrependNothing(Decoded(base64));
    while i < |base64| && base64[i] != PAD
      invariant 0 <= i <= |base64|
      invariant Decoded(base64) == Prepend(result, Decoded(base64[i..]))
      decreases |base64| - i
    {
      var enc, next := ReadGroup(base64, i);
      if enc.Err? {
        return Err(InvalidBase64);
      }
      ghost var group := base64[i..];
      i := next;
      if |enc.value| < 2 {
        UnpackLast(enc.value, base64[i..], group, result);
        break;
      }
      var out := WriteGroup(enc.value);
      if |enc.value| == 4 {
        UnpackGroup(enc.value, base64[i..], group, result);
      } else {
        UnpackLast(enc.value, base64[i..], group, result);
      }
      result := result + out;
    }
    PrependEmpty(result);
    r := Ok(result);
  }

  lemma PrependEmpty(p: Bytes)
    ensures Prepend(p, Ok([])) == Ok(p)
  {
    assert p + [] == p;
  }

  lemma PrependNothing(r: Result<Bytes>)
    ensures Prepend([], r) == r
  {
    if r.Ok? {
      assert [] + r.value == r.value;
    }
  }

  lemma PrependTwice(p: Bytes, q: Bytes, r: Result<Bytes>)
    ensures Prepend(p, Prepend(q, r)) == Prepend(p + q, r)
  {
    if r.Ok? {
      assert p + (q + r.value) == (p + q) + r.value;
    }
  }

  lemma UnpackFour(enc: Bytes, t: Bytes)
    requires |enc| == 4
    ensures Unpack(enc + t) == Unpack(enc) + Unpack(t)
  {
    assert (enc + t)[4..] == t && enc[4..] == [];
    var out := [Out1(enc[0], enc[1]), Out2(enc[1], enc[2]), Out3(enc[2], enc[3])];
    assert Unpack(enc) == out + [];
    assert Unpack(enc + t) == out + Unpack(t);
  }

  lemma Associate(a: Bytes, b: Bytes, c: Bytes)
    ensures a + (b + c) == (a + b) + c
  {
  }

  // One turn of the decoding loop consumes a full group of values...
  lemma UnpackGroup(enc: Bytes, rest: Bytes, group: Bytes, before: Bytes)
    requires |enc| == 4 && Values(group) == Prepend(enc, Values(rest))
    ensures Prepend(before, Decoded(group)) == Prepend(before + Unpack(enc), Decoded(rest))
  {
    if Values(rest).Ok? {
      var t := Values(rest).value;
      UnpackFour(enc, t);
      assert Decoded(group) == Ok(Unpack(enc) + Unpack(t)) && Decoded(rest) == Ok(Unpack(t));
      Associate(before, Unpack(enc), Unpack(t));
    }
  }

  // ... or the short group at the end.
  lemma UnpackLast(enc: Bytes, rest: Bytes, group: Bytes, before: Bytes)
    requires Values(group) == Prepend(enc, Values(rest)) && Values(rest) == Ok([])
    ensures Prepend(before, Decoded(group)) == Prepend(before + Unpack(enc), Decoded(rest))
  {
    PrependEmpty(enc);
    PrependEmpty(before + Unpack(enc));
  }

  // The values of four letters, followed by those of the rest.
  lemma ValuesOfFour(v0: bv8, v1: bv8, v2: bv8, v3: bv8, s: Bytes)
    requires v0 < 64 && v1 < 64 && v2 < 64 && v3 < 64
    ensures Values([Letter(v0), Letter(v1), Letter(v2), Letter(v3)] + s) == Prepend([v0, v1, v2, v3], Values(s))
  {
    ValuesOfTwo(v2, v3, s);
    ValuesOfTwo(v0, v1, [Letter(v2), Letter(v3)] + s);
    PrependTwice([v0, v1], [v2, v3], Values(s));
    assert [Letter(v0), Letter(v1), Letter(v2), Letter(v3)] + s
        == [Letter(v0), Letter(v1)] + ([Letter(v2), Letter(v3)] + s);
    assert [v0, v1] + [v2, v3] == [v0, v1, v2, v3];
  }

  lemma ValuesOfTwo(v: bv8, w: bv8, s: Bytes)
    requires v < 64 && w < 64
    ensures Values([Letter(v), Letter(w)] + s) == Prepend([v, w], Values(s))
  {
    ValuesCons(w, s);
    ValuesCons(v, [Letter(w)] + s);
    PrependTwice([v], [w], Values(s));
    assert [v] + [w] == [v, w];
    assert [Letter(v), Letter(w)] + s == [Letter(v)] + ([Letter(w)] + s);
  }

  lemma ValuesCons(v: bv8, s: Bytes)
    requires v < 64
    ensures Values([Letter(v)] + s) == Prepend([v], Values(s))
  {
    LetterRoundTrip(v);
    assert ([Letter(v)] + s)[1..] == s;
  }

  lemma DecodedGroup(a: bv8, b: bv8, c: bv8, s: Bytes)
    ensures Decoded(Group(a, b, c) + s) == Prepend([a, b, c], Decoded(s))
  {
    var v := [Six1(a), Six2(a, b), Six3(b, c), Six4(c)];
    ValuesOfFour(v[0], v[1], v[2], v[3], s);
    GroupRoundTrip(a, b, c);
    assert v[4..] == [];
    assert Unpack(v) == [a, b, c] + [];
    if Values(s).Ok? {
      UnpackFour(v, Values(s).value);
    }
  }

  // A last group of two letters stands for one byte.
  lemma DecodedTwo(a: bv8, tail: Bytes)
    requires |tail| > 0 && tail[0] == PAD
    ensures Decoded([Letter(Six1(a)), Letter(Six2(a, 0))] + tail) == Ok([a])
  {
    GroupRoundTrip(a, 0, 0);
    ValuesCons(Six2(a, 0), tail);
    ValuesCons(Six1(a), [Letter(Six2(a, 0))] + tail);
    assert [Letter(Six1(a)), Letter(Six2(a, 0))] + tail == [Letter(Six1(a))] + ([Letter(Six2(a, 0))] + tail);
  }

  // A last group of three letters stands for two bytes.
  lemma DecodedThree(a: bv8, b: bv8, c: bv8)
    ensures Decoded([Letter(Six1(a)), Letter(Six2(a, b)), Letter(Six3(b, c)), PAD]) == Ok([a, b])
  {
    GroupRoundTrip(a, b, c);
    ValuesCons(Six3(b, c), [PAD]);
    ValuesCons(Six2(a, b), [Letter(Six3(b, c)), PAD]);
    ValuesCons(Six1(a), [Letter(Six2(a, b)), Letter(Six3(b, c)), PAD]);
    assert [Letter(Six3(b, c))] + [PAD] == [Letter(Six3(b, c)), PAD];
    assert [Letter(Six2(a, b))] + [Letter(Six3(b, c)), PAD] == [Letter(Six2(a, b)), Letter(Six3(b, c)), PAD];
    assert [Letter(Six1(a))] + [Letter(Six2(a, b)), Letter(Six3(b, c)), PAD]
        == [Letter(Six1(a)), Letter(Six2(a, b)), Letter(Six3(b, c)), PAD];
  }

  // base64Decode inverts the standard encoding of every byte string.
  lemma {:induction false} DecodeInvertsRfc4648(d: Bytes)
    ensures Decoded(Rfc4648(d)) == Ok(d)
  {
    if |d| == 0 {
    } else if |d| == 1 {
      DecodedTwo(d[0], [PAD, PAD]);
      assert [d[0]] == d;
      assert Rfc4648(d) == [Letter(Six1(d[0])), Letter(Six2(d[0], 0))] + [PAD, PAD];
    } else if |d| == 2 {
      DecodedThree(d[0], d[1], 0);
      assert [d[0], d[1]] == d;
    } else {
      DecodeInvertsRfc4648(d[3..]);
      DecodedGroup(d[0], d[1], d[2], Rfc4648(d[3..]));
      assert [d[0], d[1], d[2]] + d[3..] == d;
    }
  }

  // What comes back from base64Encode followed by base64Decode.
  function Survivor(d: Bytes): Bytes {
    if |d| == 0 || |d| % 3 == 2 then d
    else if |d| % 3 == 1 then d + [0]
    else d[..|d| - 1]
  }

  lemma SurvivorNext(d: Bytes)
    requires |d| > 3
    ensures [d[0], d[1], d[2]] + Survivor(d[3..]) == Survivor(d)
  {
    var head, rest := [d[0], d[1], d[2]], d[3..];
    assert d == head + rest && |rest| % 3 == |d| % 3;
    if |d| % 3 == 1 {
      Associate(head, rest, [0]);
    } else if |d| % 3 == 0 {
      assert head + rest[..|rest| - 1] == (head + rest)[..|d| - 1];
    }
  }

  lemma {:induction false} EncodeThenDecode(d: Bytes)
    ensures Decoded(Encoded(d)) == Ok(Survivor(d))
  {
    if |d| == 0 {
    } else if |d| == 1 {
      assert Letter(Six3(0, 0)) == DIGIT_ZERO;
      DecodedThree(d[0], 0, 0);
      assert d + [0] == [d[0], 0];
    } else if |d| == 2 {
      DecodedThree(d[0], d[1], 0);
      assert [d[0], d[1]] == d;
    } else if |d| == 3 {
      DecodedThree(d[0], d[1], d[2]);
      assert d[..2] == [d[0], d[1]];
    } else {
      EncodeThenDecode(d[3..]);
      DecodedGroup(d[0], d[1], d[2], Encoded(d[3..]));
      SurvivorNext(d);
    }
  }

  // base64Encode can be undone, and follows RFC 4648, exactly on the empty
  // string and on lengths that leave two bytes in the last group.
  lemma {:induction false} EncodeIsFaithfulIff(d: Bytes)
    ensures Decoded(Encoded(d)) == Ok(d) <==> |d| == 0 || |d| % 3 == 2
    ensures Encoded(d) == Rfc4648(d) <==> |d| == 0 || |d| % 3 == 2
  {
    EncodeThenDecode(d);
    if !(|d| == 0 || |d| % 3 == 2) {
      assert |Survivor(d)| != |d|;
      DecodeInvertsRfc4648(d);
    } else {
      EncodedIsRfc4648(d);
    }
  }

  lemma {:induction false} EncodedIsRfc4648(d: Bytes)
    requires |d| == 0 || |d| % 3 == 2
    ensures Encoded(d) == Rfc4648(d)
  {
    if |d| > 3 {
      EncodedIsRfc4648(d[3..]);
    }
  }

  // Position i holds a character that is no letter, and no '=' comes before it.
  ghost predicate BadAt(s: Bytes, i: nat) {
    i < |s| && LetterValue(s[i]).None? && PAD !in s[..i + 1]
  }

  // base64Decode throws exactly when some character before the first '=' is no letter.
  lemma {:induction false} DecodeFailsIff(s: Bytes)
    ensures Decoded(s).Err? <==> exists i :: BadAt(s, i)
  {
    if |s| == 0 || s[0] == PAD {
      forall i: nat ensures !BadAt(s, i) {
        assert i < |s| ==> s[..i + 1][0] == PAD;
      }
    } else if LetterValue(s[0]).None? {
      assert s[..0 + 1] == [s[0]];
      assert BadAt(s, 0);
    } else {
      var t := s[1..];
      DecodeFailsIff(t);
      forall i: nat ensures BadAt(t, i) <==> BadAt(s, i + 1) {
        assert i < |t| ==> s[..i + 2] == [s[0]] + t[..i + 1];
      }
      if i: nat :| BadAt(t, i) {
        assert BadAt(s, i + 1);
      }
      if i: nat :| BadAt(s, i) {
        assert i > 0 && BadAt(t, i - 1);
      }
    }
  }

  // ---- What the standard says in so many words ----

  // 'A' to 'Z', 'a' to 'z', '0' to '9', '+' and '/' stand for 0 to 63, and no other character does.
  lemma AlphabetIs(v: bv8, ch: bv8)
    ensures Letter(0) == 0x41 && Letter(26) == 0x61 && Letter(52) == 0x30 && Letter(62) == 0x2B && Letter(63) == 0x2F
    ensures v < 25 || 26 <= v < 51 || 52 <= v < 61 ==> Letter(v + 1) == Letter(v) + 1
    ensures LetterValue(ch) == Some(v) <==> v < 64 && ch == Letter(v)
  {
  }

  // Section 10 of RFC 4648: "foobar" is "Zm9vYmFy", "fooba" "Zm9vYmE=", "foob" "Zm9vYg==".
  lemma TestVectors()
    ensures Rfc4648([0x66, 0x6F, 0x6F, 0x62, 0x61, 0x72]) == [0x5A, 0x6D, 0x39, 0x76, 0x59, 0x6D, 0x46, 0x79]
    ensures Rfc4648([0x66, 0x6F, 0x6F, 0x62, 0x61]) == [0x5A, 0x6D, 0x39, 0x76, 0x59, 0x6D, 0x45, 0x3D]
    ensures Rfc4648([0x66, 0x6F, 0x6F, 0x62]) == [0x5A, 0x6D, 0x39, 0x76, 0x59, 0x67, 0x3D, 0x3D]
  {
  }

  // Three bytes and four values are the same 24 bits, the first in the highest places.
  function Bits8(a: bv8, b: bv8, c: bv8): bv32 {
    ((a as bv32) << 16) | ((b as bv32) << 8) | (c as bv32)
  }

  function Bits6(v0: bv8, v1: bv8, v2: bv8, v3: bv8): bv32 {
    ((v0 as bv32) << 18) | ((v1 as bv32) << 12) | ((v2 as bv32) << 6) | (v3 as bv32)
  }

  lemma GroupIs(a: bv8, b: bv8, c: bv8, v0: bv8, v1: bv8, v2: bv8, v3: bv8)
    ensures Bits6(Six1(a), Six2(a, b), Six3(b, c), Six4(c)) == Bits8(a, b, c)
    ensures v0 < 64 && v1 < 64 && v2 < 64 && v3 < 64 ==>
      Bits8(Out1(v0, v1), Out2(v1, v2), Out3(v2, v3)) == Bits6(v0, v1, v2, v3)
  {
  }

  // As many bytes come out as the values hold in full.
  lemma {:induction false} UnpackedLength(v: Bytes)
    ensures |Unpack(v)| == |v| * 6 / 8
  {
    if |v| >= 4 {
      UnpackedLength(v[4..]);
    }
  }
}
