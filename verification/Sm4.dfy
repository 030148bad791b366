/**
  The framing of SM4 ciphertexts: hexadecimal text of the initialisation vector
  followed by PKCS#7-padded CBC blocks. The block cipher and HMAC-SM3 themselves
  are parameters: any keyed permutation of blocks and any keyed hash.
 */
module Sm4 {
  import opened Common
  import opened Hex

  const KEY_LEN := 16
  const IV_LEN := 16

  type Block = b: Bytes | |b| == 16 witness seq(16, _ => 0)

  datatype Primitives = Primitives(
    mac: (Bytes, Bytes) -> Bytes,        // data, key
    encrypt: (Bytes, Block) -> Block,    // key, block
    decrypt: (Bytes, Block) -> Block     // key, block
  )

  ghost predicate Inverse(c: Primitives) {
    forall key, b :: c.decrypt(key, c.encrypt(key, b)) == b
  }

  // Libraries whose block decryption undoes block encryption.
  type Crypto = c: Primitives | Inverse(c)
    witness Primitives((d, _) => d, (_, b) => b, (_, b) => b)

  function HmacHex(c: Crypto, data: Bytes, key: Bytes): Bytes {
    ToHex(c.mac(data, key))
  }

  // ---- Padding, section 6.3 of RFC 5652 ----

  function PadLength(n: nat): (p: nat)
    ensures 1 <= p <= 16 && (n + p) % 16 == 0
  {
    16 - n % 16
  }

  function PadByte(p: nat): (b: bv8)
    requires p <= 16
    ensures b as int == p
  {
    p as bv8
  }

  function Pad(p: Bytes): (r: Bytes)
    ensures |r| == |p| + PadLength(|p|)
  {
    p + seq(PadLength(|p|), _ => PadByte(PadLength(|p|)))
  }

  predicate WellPadded(p: Bytes) {
    |p| > 0 && (var n := p[|p| - 1] as int;
      1 <= n <= 16 && n <= |p| && forall i :: |p| - n <= i < |p| ==> p[i] == p[|p| - 1])
  }

  function Unpad(p: Bytes): Option<Bytes> {
    if WellPadded(p) then Some(p[..|p| - p[|p| - 1] as int]) else None
  }

  lemma UnpadUndoesPad(p: Bytes)
    ensures Unpad(Pad(p)) == Some(p)
  {
    var n := PadLength(|p|);
    var r := Pad(p);
    assert r[|r| - 1] == PadByte(n);
    assert r[..|r| - n] == p;
  }

  // Whole blocks may be set aside before padding.
  lemma PadSplit(p: Bytes, n: nat)
    requires n <= |p| && n % 16 == 0
    ensures p[..n] + Pad(p[n..]) == Pad(p)
  {
    assert PadLength(|p[n..]|) == PadLength(|p|);
    assert p == p[..n] + p[n..];
  }

  // ---- Cipher block chaining, section 6.2 of NIST SP 800-38A ----

  function Xor(a: Block, b: Block): Block {
    seq(16, i requires 0 <= i < 16 => a[i] ^ b[i])
  }

  lemma XorCancels(a: Block, b: Block)
    ensures Xor(a, Xor(a, b)) == b
  {
    forall i | 0 <= i < 16 ensures a[i] ^ (a[i] ^ b[i]) == b[i] {
    }
  }

  function CbcEncrypt(c: Crypto, key: Bytes, iv: Block, p: Bytes): (x: Bytes)
    requires |p| % 16 == 0
    ensures |x| == |p|
    decreases |p|
  {
    if p == [] then [] else
      var b := c.encrypt(key, Xor(iv, p[..16]));
      b + CbcEncrypt(c, key, b, p[16..])
  }

  function CbcDecrypt(c: Crypto, key: Bytes, iv: Block, x: Bytes): (p: Bytes)
    requires |x| % 16 == 0
    ensures |p| == |x|
    decreases |x|
  {
    if x == [] then [] else
      Xor(iv, c.decrypt(key, x[..16])) + CbcDecrypt(c, key, x[..16], x[16..])
  }

  lemma {:induction false} CbcRoundTrip(c: Crypto, key: Bytes, iv: Block, p: Bytes)
    requires |p| % 16 == 0
    ensures CbcDecrypt(c, key, iv, CbcEncrypt(c, key, iv, p)) == p
    decreases |p|
  {
    if p != [] {
      var b := c.encrypt(key, Xor(iv, p[..16]));
      var x := CbcEncrypt(c, key, iv, p);
      assert x[..16] == b && x[16..] == CbcEncrypt(c, key, b, p[16..]);
      assert c.decrypt(key, b) == Xor(iv, p[..16]);
      XorCancels(iv, p[..16]);
      CbcRoundTrip(c, key, b, p[16..]);
      assert p[..16] + p[16..] == p;
    }
  }

  // The vector the block after ciphertext x is chained to.
  function ChainAfter(iv: Block, x: Bytes): Block
    requires |x| % 16 == 0
  {
    if x == [] then iv else x[|x| - 16..]
  }

  // Chaining may stop after any block and go on with the last one as the vector.
  lemma {:induction false} CbcEncryptSplit(c: Crypto, key: Bytes, iv: Block, p: Bytes, q: Bytes)
    requires |p| % 16 == 0 && |q| % 16 == 0
    ensures
      var x := CbcEncrypt(c, key, iv, p);
      CbcEncrypt(c, key, iv, p + q) == x + CbcEncrypt(c, key, ChainAfter(iv, x), q)
    decreases |p|
  {
    if p == [] {
      assert p + q == q;
      assert [] + CbcEncrypt(c, key, iv, q) == CbcEncrypt(c, key, iv, q);
    } else {
      var b := c.encrypt(key, Xor(iv, p[..16]));
      var y := CbcEncrypt(c, key, b, p[16..]);
      CbcEncryptSplit(c, key, b, p[16..], q);
      assert (p + q)[..16] == p[..16] && (p + q)[16..] == p[16..] + q;
      ChainAfterPrepend(iv, b, y);
      var z := CbcEncrypt(c, key, ChainAfter(b, y), q);
      assert b + (y + z) == (b + y) + z;
    }
  }

  lemma ChainAfterPrepend(iv: Block, b: Block, y: Bytes)
    requires |y| % 16 == 0
    ensures ChainAfter(iv, b + y) == ChainAfter(b, y)
  {
    assert (b + y)[|b + y| - 16..] == ChainAfter(b, y);
  }

  // ---- Sm4Cipher::encrypt and Sm4Cipher::decrypt ----

  // The text encrypt returns for a vector iv.
  function Sealed(c: Crypto, plain: Bytes, key: Bytes, iv: Block): Bytes {
    ToHex(iv + CbcEncrypt(c, key, iv, Pad(plain)))
  }

  function Opened(c: Crypto, text: Bytes, key: Bytes): Result<Bytes> {
    if |key| != KEY_LEN then Err(BadKeyLength) else
    var combined :- FromHex(text);
    if |combined| < IV_LEN then Err(CiphertextTooShort)
    else if (|combined| - IV_LEN) % 16 != 0 then Err(CiphertextNotBlocks)
    else match Unpad(CbcDecrypt(c, key, combined[..16], combined[16..]))
      case Some(p) => Ok(p)
      case None => Err(BadPadding)
  }

  // Opening the text of a vector and whole blocks.
  lemma OpenBlocks(c: Crypto, iv: Block, x: Bytes, key: Bytes)
    requires |key| == KEY_LEN && |x| % 16 == 0
    ensures Opened(c, ToHex(iv + x), key) ==
      match Unpad(CbcDecrypt(c, key, iv, x)) case Some(p) => Ok(p) case None => Err(BadPadding)
  {
    HexRoundTrip(iv + x);
    assert (iv + x)[..16] == iv && (iv + x)[16..] == x;
  }

  lemma OpenUndoesSeal(c: Crypto, plain: Bytes, key: Bytes, iv: Block)
    requires |key| == KEY_LEN
    ensures Opened(c, Sealed(c, plain, key, iv), key) == Ok(plain)
  {
    OpenBlocks(c, iv, CbcEncrypt(c, key, iv, Pad(plain)), key);
    CbcRoundTrip(c, key, iv, Pad(plain));
    UnpadUndoesPad(plain);
  }

  // A text that opens to n bytes has 32 * (n / 16 + 2) characters.
  lemma OpenedLength(c: Crypto, text: Bytes, key: Bytes)
    requires Opened(c, text, key).Ok?
    ensures |text| == 32 * (|Opened(c, text, key).value| / 16 + 2)
  {
    var combined := FromHex(text).value;
    UnpaddedLength(CbcDecrypt(c, key, combined[..16], combined[16..]), Opened(c, text, key).value);
  }

  lemma UnpaddedLength(padded: Bytes, p: Bytes)
    requires Unpad(padded) == Some(p) && |padded| % 16 == 0
    ensures |padded| == 16 * (|p| / 16 + 1)
  {
    var n := padded[|padded| - 1] as int;
    assert |p| == |padded| - n && 1 <= n <= 16;
  }

  // The size of the buffer a ciphertext column is fetched into.
  const COLUMN_BUFFER := 4096

  // A stored ciphertext fits the fetch buffer exactly up to 2031 bytes of plaintext.
  lemma FitsBufferIff(c: Crypto, text: Bytes, key: Bytes)
    requires Opened(c, text, key).Ok?
    ensures |text| <= COLUMN_BUFFER <==> |Opened(c, text, key).value| <= 2031
  {
    OpenedLength(c, text, key);
  }

  function SealedSize(n: nat): nat {
    32 * (n / 16 + 2)
  }

  // The same for a text that was sealed, whatever key opens it.
  lemma SealedLength(c: Crypto, plain: Bytes, key: Bytes, iv: Block)
    ensures |Sealed(c, plain, key, iv)| == SealedSize(|plain|)
    ensures |Sealed(c, plain, key, iv)| <= COLUMN_BUFFER <==> |plain| <= 2031
  {
    assert |Pad(plain)| == 16 * (|plain| / 16 + 1);
  }

  // iv is the random vector; the source allocates n + 16 bytes and lets the
  // library write the full blocks first and the padded block last.
  method Encrypt(c: Crypto, plaintext: Bytes, key: Bytes, iv: Block) returns (r: Result<Bytes>)
    ensures |key| != KEY_LEN ==> r == Err(BadKeyLength)
    ensures |key| == KEY_LEN ==> r == Ok(Sealed(c, plaintext, key, iv))
  {
    if |key| != KEY_LEN {
      return Err(BadKeyLength);
    }
    var cipher := new bv8[|plaintext| + 16];
    var totalLen := 0;
    var outLen := CipherUpdate(c, key, iv, plaintext, cipher);
    totalLen := totalLen + outLen;
    ghost var full := plaintext[..outLen];
    ghost var head := CbcEncrypt(c, key, iv, full);
    var chain: Block := if outLen == 0 then iv else cipher[outLen - 16..outLen];
    var finalLen := CipherFinal(c, key, chain, plaintext[outLen..], cipher, totalLen);
    totalLen := totalLen + finalLen;
    CbcEncryptSplit(c, key, iv, full, Pad(plaintext[outLen..]));
    PadSplit(plaintext, outLen);
    assert outLen != 0 ==> full != [] && chain == head[|head| - 16..];
    var combined := iv + cipher[..totalLen];
    assert cipher[..totalLen] == CbcEncrypt(c, key, iv, Pad(plaintext));
    var hex := BinToHex(combined);
    r := Ok(hex);
  }

  // The library writes every complete block of the input.
  method CipherUpdate(c: Crypto, key: Bytes, iv: Block, input: Bytes, out: array<bv8>) returns (outLen: nat)
    requires out.Length == |input| + 16
    modifies out
    ensures outLen == |input| / 16 * 16
    ensures out[..outLen] == CbcEncrypt(c, key, iv, input[..outLen])
  {
    outLen := |input| / 16 * 16;
    var x := CbcEncrypt(c, key, iv, input[..outLen]);
    forall i | 0 <= i < outLen {
      out[i] := x[i];
    }
  }

  // The library pads what is left to one block and appends it; it always fits.
  method CipherFinal(c: Crypto, key: Bytes, chain: Block, rest: Bytes, out: array<bv8>, offset: nat)
    returns (finalLen: nat)
    requires |rest| < 16 && offset + |rest| + 16 == out.Length
    modifies out
    ensures finalLen == 16 && offset + finalLen <= out.Length
    ensures out[..offset + finalLen] == old(out[..offset]) + CbcEncrypt(c, key, chain, Pad(rest))
  {
    finalLen := 16;
    var x := CbcEncrypt(c, key, chain, Pad(rest));
    forall i | 0 <= i < 16 {
      out[offset + i] := x[i];
    }
    assert out[..offset + 16] == old(out[..offset]) + x;
  }

  method Decrypt(c: Crypto, ciphertextHex: Bytes, key: Bytes) returns (r: Result<Bytes>)
    ensures r == Opened(c, ciphertextHex, key)
  {
    if |key| != KEY_LEN {
      return Err(BadKeyLength);
    }
    var decoded := HexToBin(ciphertextHex);
    if decoded.Err? {
      return Err(decoded.error);
    }
    var combined := decoded.value;
    if |combined| < IV_LEN {
      return Err(CiphertextTooShort);
    }
    if (|combined| - IV_LEN) % 16 != 0 {
      return Err(CiphertextNotBlocks);
    }
    var plain := CbcDecrypt(c, key, combined[..16], combined[16..]);
    var unpadded := RemovePadding(plain);
    r := match unpadded case Some(p) => Ok(p) case None => Err(BadPadding);
  }

  // The padding check of gmsslDecryptRecord; the library's decryption makes the same one.
  method RemovePadding(plain: Bytes) returns (r: Option<Bytes>)
    ensures r == Unpad(plain)
    ensures r.Some? <==> exists n :: PaddedBy(plain, n)
    ensures forall n :: PaddedBy(plain, n) ==> r == Some(plain[..|plain| - n])
  {
    UnpadIff(plain);
    if |plain| == 0 {
      return None;
    }
    var padLen := plain[|plain| - 1] as int;
    if padLen == 0 || padLen > 16 || padLen > |plain| {
      return None;
    }
    for i := 0 to padLen
      invariant forall k :: |plain| - i <= k < |plain| ==> plain[k] == plain[|plain| - 1]
    {
      if plain[|plain| - 1 - i] != plain[|plain| - 1] {
        return None;
      }
    }
    r := Some(plain[..|plain| - padLen]);
  }

  // gmsslDecryptRecord: Ok(None) when it returns false, an error when hexToBin throws.
  function GmsslOutcome(c: Crypto, cipher: Bytes, tag: Bytes, encKey: Bytes, tagKey: Bytes): Result<Option<Bytes>> {
    if HmacHex(c, cipher, tagKey) != tag then Ok(None)
    else match FromHex(cipher)
      case Err(e) => Err(e)
      case Ok(_) => Ok(match Opened(c, cipher, encKey) case Ok(p) => Some(p) case Err(_) => None)
  }

  method GmsslDecryptRecord(c: Crypto, cipher: Bytes, tag: Bytes, encKey: Bytes, tagKey: Bytes)
    returns (r: Result<Option<Bytes>>)
    requires |encKey| == KEY_LEN
    ensures r == GmsslOutcome(c, cipher, tag, encKey, tagKey)
    ensures r.Err? <==> tag == ToHex(c.mac(cipher, tagKey)) && FromHex(cipher).Err?
    ensures forall p :: r == Ok(Some(p)) <==>
      tag == ToHex(c.mac(cipher, tagKey)) && Opened(c, cipher, encKey) == Ok(p)
  {
    var calcTag := BinToHex(c.mac(cipher, tagKey));
    if calcTag != tag {
      return Ok(None);
    }
    var decoded := HexToBin(cipher);
    if decoded.Err? {
      return Err(decoded.error);
    }
    var cipherBin := decoded.value;
    if |cipherBin| < 16 {
      return Ok(None);
    }
    var iv := cipherBin[..16];
    var cipherLen := |cipherBin| - 16;
    if cipherLen == 0 || cipherLen % 16 != 0 {
      return Ok(None);
    }
    var plain := CbcDecrypt(c, encKey, iv, cipherBin[16..]);
    var unpadded := RemovePadding(plain);
    r := Ok(unpadded);
  }

  // The hand-written decryption undoes the library's encryption of every plaintext.
  lemma GmsslUndoesEncrypt(c: Crypto, plain: Bytes, encKey: Bytes, iv: Block, tagKey: Bytes)
    requires |encKey| == KEY_LEN
    ensures
      var text := Sealed(c, plain, encKey, iv);
      GmsslOutcome(c, text, HmacHex(c, text, tagKey), encKey, tagKey) == Ok(Some(plain))
  {
    OpenUndoesSeal(c, plain, encKey, iv);
  }

  // ---- The framing byte by byte ----

  // The text ends in n bytes n.
  ghost predicate PaddedBy(p: Bytes, n: int) {
    1 <= n <= 16 && n <= |p| && forall i :: |p| - n <= i < |p| ==> p[i] as int == n
  }

  // Exactly such texts are accepted, and lose exactly these bytes.
  lemma UnpadIff(p: Bytes)
    ensures Unpad(p).Some? <==> exists n :: PaddedBy(p, n)
    ensures forall n :: PaddedBy(p, n) ==> Unpad(p) == Some(p[..|p| - n])
  {
    if Unpad(p).Some? {
      assert PaddedBy(p, p[|p| - 1] as int);
    }
    forall n | PaddedBy(p, n) ensures Unpad(p) == Some(p[..|p| - n]) {
      assert p[|p| - 1] as int == n;
      forall i | |p| - n <= i < |p| ensures p[i] == p[|p| - 1] {
        SameByte(p[i], p[|p| - 1]);
      }
    }
  }

  lemma SameByte(a: bv8, b: bv8)
    requires a as int == b as int
    ensures a == b
  {
    assert (a as int) as bv8 == a && (b as int) as bv8 == b;
  }

  // Block k of a ciphertext, which the block cipher turns into that of the plaintext plus the
  // block of ciphertext before it; the vector stands before the first.
  ghost predicate Chained(c: Crypto, key: Bytes, iv: Block, p: Bytes, x: Bytes, k: nat)
    requires |p| == |x| && 16 * k + 16 <= |x|
  {
    var d := c.decrypt(key, x[16 * k..16 * k + 16]);
    forall j :: 0 <= j < 16 ==> d[j] == p[16 * k + j] ^ if k == 0 then iv[j] else x[16 * k + j - 16]
  }

  // One block put before both texts.
  lemma ChainedNext(c: Crypto, key: Bytes, iv: Block, h: Block, p: Bytes, b: Block, x: Bytes, k: nat)
    requires |p| == |x| && 16 * k + 16 <= |x| && Chained(c, key, b, p, x, k)
    ensures Chained(c, key, iv, h + p, b + x, k + 1)
  {
    assert (b + x)[16 * (k + 1)..16 * (k + 1) + 16] == x[16 * k..16 * k + 16];
    forall m | 0 <= m < |x| ensures (h + p)[m + 16] == p[m] && (b + x)[m + 16] == x[m] {
    }
  }

  lemma {:induction false} EncryptChains(c: Crypto, key: Bytes, iv: Block, p: Bytes, k: nat)
    requires |p| % 16 == 0 && 16 * k + 16 <= |p|
    ensures Chained(c, key, iv, p, CbcEncrypt(c, key, iv, p), k)
    decreases |p|
  {
    var b := c.encrypt(key, Xor(iv, p[..16]));
    var x := CbcEncrypt(c, key, iv, p);
    assert c.decrypt(key, b) == Xor(iv, p[..16]);
    if k == 0 {
      assert x[0..16] == b;
      forall j | 0 <= j < 16 ensures c.decrypt(key, b)[j] == p[j] ^ iv[j] {
      }
    } else {
      EncryptChains(c, key, b, p[16..], k - 1);
      ChainedNext(c, key, iv, p[..16], p[16..], b, CbcEncrypt(c, key, b, p[16..]), k - 1);
      assert p[..16] + p[16..] == p;
    }
  }

  lemma {:induction false} DecryptChains(c: Crypto, key: Bytes, iv: Block, x: Bytes, k: nat)
    requires |x| % 16 == 0 && 16 * k + 16 <= |x|
    ensures Chained(c, key, iv, CbcDecrypt(c, key, iv, x), x, k)
    decreases |x|
  {
    var d := c.decrypt(key, x[..16]);
    if k == 0 {
      assert x[0..16] == x[..16];
      forall j | 0 <= j < 16 ensures d[j] == CbcDecrypt(c, key, iv, x)[j] ^ iv[j] {
        TwoTerms(iv[j], d[j]);
      }
    } else {
      DecryptChains(c, key, x[..16], x[16..], k - 1);
      ChainedNext(c, key, iv, Xor(iv, d), CbcDecrypt(c, key, x[..16], x[16..]), x[..16], x[16..], k - 1);
      assert x[..16] + x[16..] == x;
    }
  }

  lemma TwoTerms(a: bv8, d: bv8)
    ensures d == (a ^ d) ^ a
  {
  }

  // The whole of a sealed text: the hexadecimal digits of the vector and of the chained blocks of
  // the plaintext, which 16 - |plain| % 16 bytes of that value fill up.
  lemma SealedIs(c: Crypto, plain: Bytes, key: Bytes, iv: Block)
    ensures
      var x := FromHex(Sealed(c, plain, key, iv));
      && x.Ok? && x.value[..16] == iv && |x.value| == 16 * (|plain| / 16 + 2)
      && exists p :: |p| == |x.value| - 16 && PaddedBy(p, 16 - |plain| % 16) && p[..|plain|] == plain
                     && forall k: nat :: 16 * k + 16 <= |p| ==> Chained(c, key, iv, p, x.value[16..], k)
  {
    var p := Pad(plain);
    var x := CbcEncrypt(c, key, iv, p);
    HexRoundTrip(iv + x);
    assert (iv + x)[..16] == iv && (iv + x)[16..] == x;
    assert PadLength(|plain|) == 16 - |plain| % 16;
    assert PaddedBy(p, 16 - |plain| % 16);
    forall k: nat | 16 * k + 16 <= |p| ensures Chained(c, key, iv, p, x, k) {
      EncryptChains(c, key, iv, p, k);
    }
  }

  // What decrypt returns for every text and key: the first failing check names the error, and
  // what passes all is the chained blocks under that key without their padding.
  lemma OpenedIs(c: Crypto, text: Bytes, key: Bytes)
    ensures |key| != 16 ==> Opened(c, text, key) == Err(BadKeyLength)
    ensures |key| == 16 && FromHex(text).Err? ==> Opened(c, text, key) == Err(FromHex(text).error)
    ensures |key| == 16 && FromHex(text).Ok? ==>
      var x := FromHex(text).value;
      && (|x| < 16 ==> Opened(c, text, key) == Err(CiphertextTooShort))
      && (|x| > 16 && |x| % 16 != 0 ==> Opened(c, text, key) == Err(CiphertextNotBlocks))
      && (|x| >= 16 && |x| % 16 == 0 ==> DecryptsBy(c, x[..16], x[16..], key, Opened(c, text, key)))
  {
    if |key| == 16 && FromHex(text).Ok? && |FromHex(text).value| >= 16 && |FromHex(text).value| % 16 == 0 {
      var iv, x := FromHex(text).value[..16], FromHex(text).value[16..];
      var p := CbcDecrypt(c, key, iv, x);
      forall k: nat | 16 * k + 16 <= |x| ensures Chained(c, key, iv, p, x, k) {
        DecryptChains(c, key, iv, x, k);
      }
      UnpadIff(p);
      assert DecryptedTo(c, iv, x, key, p, Opened(c, text, key));
    }
  }

  ghost predicate DecryptsBy(c: Crypto, iv: Block, x: Bytes, key: Bytes, r: Result<Bytes>)
    requires |x| % 16 == 0
  {
    exists p :: DecryptedTo(c, iv, x, key, p, r)
  }

  ghost predicate DecryptedTo(c: Crypto, iv: Block, x: Bytes, key: Bytes, p: Bytes, r: Result<Bytes>)
    requires |x| % 16 == 0
  {
    && |p| == |x| && (forall k: nat :: 16 * k + 16 <= |x| ==> Chained(c, key, iv, p, x, k))
    && ((forall n :: !PaddedBy(p, n)) ==> r == Err(BadPadding))
    && forall n :: PaddedBy(p, n) ==> r == Ok(p[..|p| - n])
  }

  // The keyed hash is written as its hexadecimal digits.
  lemma HmacHexIs(c: Crypto, data: Bytes, key: Bytes)
    ensures FromHex(HmacHex(c, data, key)) == Ok(c.mac(data, key))
  {
    HexRoundTrip(c.mac(data, key));
  }
}
