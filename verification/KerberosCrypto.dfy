/** Key derivation, encryption and checksums over abstract AES and HMAC (libs/protocol/src/kerberos.cpp;
    section 6 of RFC 3962, sections 5.1 and 5.3 of RFC 3961). */
module KerberosCrypto {
  import opened Octets
  import opened Texts
  import opened NFold

  /** What OpenSSL is asked for: AES on one block, AES-CBC with ciphertext stealing, HMAC-SHA1. */
  datatype Crypto = Crypto(
    ecb: (Bytes, Bytes) -> Bytes,
    ctsEncrypt: (Bytes, Bytes) -> Bytes,
    ctsDecrypt: (Bytes, Bytes) -> Bytes,
    hmac: (Bytes, Bytes) -> Bytes)

  predicate IsAesKey(key: Bytes) {
    |key| == 16 || |key| == 32
  }

  /** The laws assumed of them: lengths, and that decryption inverts encryption under the same key. */
  ghost predicate Lawful(c: Crypto) {
    && (forall k, b :: IsAesKey(k) && |b| == 16 ==> |c.ecb(k, b)| == 16)
    && (forall k, p :: IsAesKey(k) && |p| >= 16
          ==> |c.ctsEncrypt(k, p)| == |p| && c.ctsDecrypt(k, c.ctsEncrypt(k, p)) == p)
    && (forall k, p :: |c.hmac(k, p)| == 20)
  }

  /** Some functions obey the laws. */
  lemma LawsAreConsistent() returns (c: Crypto)
    ensures Lawful(c)
  {
    c := Crypto((k, b) => b, (k, p) => p, (k, p) => p, (k, p) => Zeros(20));
  }

  // ---------- Hexadecimal keys ----------

  function HexValue(b: byte): (r: Option<nat>)
    ensures r.Some? ==> r.value < 16
  {
    if 48 <= b <= 57 then Some(b - 48)
    else if 65 <= b <= 70 then Some(b - 55)
    else if 97 <= b <= 102 then Some(b - 87)
    else None
  }

  function HexDigit(v: nat): (b: byte)
    requires v < 16
  {
    if v < 10 then 48 + v else 87 + v
  }

  /** std::stoul(…, 16) of two characters, truncated to a byte: a leading space or sign is skipped, what follows the
      first digits is ignored, and "0x" reads as 0. */
  function HexPair(a: byte, b: byte): (r: Option<byte>)
  {
    match (HexValue(a), HexValue(b))
    case (Some(x), Some(y)) => Some(16 * x + y)
    case (Some(x), None) => Some(x)
    case (None, Some(y)) =>
      if a == 32 || 9 <= a <= 13 || a == 43 then Some(y)
      else if a == 45 then Some((256 - y) % 256)
      else None
    case (None, None) => None
  }

  function Pairs(hex: Text): (r: Option<Bytes>)
    requires |hex| % 2 == 0
  {
    if |hex| == 0 then Some([])
    else
      var first :- Pairs(hex[..|hex| - 2]);
      var b :- HexPair(hex[|hex| - 2], hex[|hex| - 1]);
      Some(first + [b])
  }

  /** hex_to_bytes */
  function HexToBytes(hex: Text): (r: Option<Bytes>)
  {
    if |hex| % 2 != 0 then None else Pairs(hex)
  }

  /** bytes_to_hex */
  function BytesToHex(s: Bytes): (hex: Text)
    ensures |hex| == 2 * |s|
  {
    if |s| == 0 then []
    else BytesToHex(s[..|s| - 1]) + [HexDigit(s[|s| - 1] / 16), HexDigit(s[|s| - 1] % 16)]
  }

  method DecodeHex(hex: Text) returns (r: Option<Bytes>)
    ensures r == HexToBytes(hex)
  {
    hide HexPair;
    if |hex| % 2 != 0 {
      return None;
    }
    var bytes: Bytes := [];
    var offset := 0;
    while offset < |hex|
      invariant offset <= |hex| && offset % 2 == 0
      invariant Pairs(hex[..offset]) == Some(bytes)
      decreases |hex| - offset
    {
      var b := HexPair(hex[offset], hex[offset + 1]);
      assert hex[..offset + 2][..offset] == hex[..offset];
      if b.None? {
        PairsFail(hex, offset + 2);
        return None;
      }
      bytes := bytes + [b.value];
      offset := offset + 2;
    }
    assert hex[..|hex|] == hex;
    return Some(bytes);
  }

  lemma {:induction false} PairsFail(hex: Text, n: nat)
    requires |hex| % 2 == 0 && n % 2 == 0 && n <= |hex| && Pairs(hex[..n]) == None
    ensures Pairs(hex) == None
    decreases |hex| - n
  {
    hide HexPair;
    if n == |hex| {
      assert hex[..n] == hex;
    } else {
      assert hex[..n + 2][..n] == hex[..n];
      PairsFail(hex, n + 2);
    }
  }

  method EncodeHex(s: Bytes) returns (hex: Text)
    ensures hex == BytesToHex(s)
  {
    hex := [];
    for i := 0 to |s|
      invariant hex == BytesToHex(s[..i])
    {
      assert s[..i + 1][..i] == s[..i];
      hex := hex + [HexDigit(s[i] / 16), HexDigit(s[i] % 16)];
    }
    assert s[..|s|] == s;
  }

  /** Session keys survive the detour through hexadecimal text. */
  lemma {:induction false} HexRoundTrip(s: Bytes)
    ensures HexToBytes(BytesToHex(s)) == Some(s)
  {
    if |s| > 0 {
      var n := |s| - 1;
      HexRoundTrip(s[..n]);
      assert BytesToHex(s)[..2 * n] == BytesToHex(s[..n]);
      PairRoundTrip(s[n]);
      assert s == s[..n] + [s[n]];
    }
  }

  lemma {:induction false} PairRoundTrip(b: byte)
    ensures HexPair(HexDigit(b / 16), HexDigit(b % 16)) == Some(b)
  {
  }

  // ---------- Key derivation ----------

  /** key_usage_constant */
  function UsageConstant(usage: u32, seed: byte): (s: Bytes)
    ensures |s| == 5
  {
    U32BE(usage) + [seed]
  }

  /** A constant of one block is used as it is. */
  function FirstBlock(constant: Bytes): (s: Bytes)
    ensures |s| == 16
  {
    if |constant| == 16 then constant else Fold(constant, 16)
  }

  /** n times the block cipher, each block the encryption of the one before. */
  function Chain(c: Crypto, key: Bytes, block: Bytes, n: nat): (s: Bytes)
    decreases n
  {
    if n == 0 then [] else c.ecb(key, block) + Chain(c, key, c.ecb(key, block), n - 1)
  }

  lemma {:induction false} ChainLength(c: Crypto, key: Bytes, block: Bytes, n: nat)
    requires Lawful(c) && IsAesKey(key) && |block| == 16
    ensures |Chain(c, key, block, n)| == 16 * n
    decreases n
  {
    if n > 0 {
      ChainLength(c, key, c.ecb(key, block), n - 1);
    }
  }

  type AesKeyBytes = k: Bytes | IsAesKey(k) witness Zeros(16)

  /** kerberos_dk: as many blocks as the key is long. */
  function DerivedKey(c: Crypto, key: Bytes, constant: Bytes): (s: AesKeyBytes)
    requires Lawful(c) && IsAesKey(key)
  {
    ChainLength(c, key, FirstBlock(constant), |key| / 16);
    Chain(c, key, FirstBlock(constant), |key| / 16)
  }

  lemma DerivedKeyLength(c: Crypto, key: Bytes, constant: Bytes)
    requires Lawful(c) && IsAesKey(key)
    ensures |DerivedKey(c, key, constant)| == |key|
  {
    hide Lawful, Chain, FirstBlock;
    ChainLength(c, key, FirstBlock(constant), |key| / 16);
  }

  method Dk(c: Crypto, key: Bytes, constant: Bytes) returns (output: Bytes)
    requires Lawful(c) && IsAesKey(key)
    ensures output == DerivedKey(c, key, constant)
  {
    hide Lawful, Chain, FirstBlock, DerivedKey;
    var block := FirstBlock(constant);
    output := [];
    ghost var n: nat := |key| / 16;
    DerivedIsChain(c, key, constant);
    DerivedKeyLength(c, key, constant);
    while |output| < |key|
      invariant |block| == 16 && |output| == |key| - 16 * n
      invariant output + Chain(c, key, block, n) == DerivedKey(c, key, constant)
      decreases n
    {
      ChainStep(c, key, block, n, output);
      block := c.ecb(key, block);
      output := output + block;
      n := n - 1;
    }
    assert |output + Chain(c, key, block, n)| == |key|;
    assert output + Chain(c, key, block, n) == output;
    output := output[..|key|];
  }

  lemma {:induction false} DerivedIsChain(c: Crypto, key: Bytes, constant: Bytes)
    requires Lawful(c) && IsAesKey(key)
    ensures [] + Chain(c, key, FirstBlock(constant), |key| / 16) == DerivedKey(c, key, constant)
  {
    hide Lawful, Chain, FirstBlock;
  }

  lemma {:induction false} ChainStep(c: Crypto, key: Bytes, block: Bytes, n: nat, output: Bytes)
    requires Lawful(c) && IsAesKey(key) && |block| == 16 && n > 0
    ensures |c.ecb(key, block)| == 16
    ensures output + Chain(c, key, block, n) == output + c.ecb(key, block) + Chain(c, key, c.ecb(key, block), n - 1)
  {
    assert output + (c.ecb(key, block) + Chain(c, key, c.ecb(key, block), n - 1))
        == output + c.ecb(key, block) + Chain(c, key, c.ecb(key, block), n - 1);
  }

  /** The shortcut for one-block constants changes nothing: folding them gives them back. */
  lemma {:induction false} ShortcutChangesNothing(constant: Bytes)
    ensures FirstBlock(constant) == Fold(constant, 16)
  {
    hide Fold;
    if |constant| == 16 {
      FoldToOwnSize(constant);
    }
  }

  // ---------- Encryption and checksums ----------

  type Digest96 = s: Bytes | |s| == 12 witness Zeros(12)

  function Mac96(c: Crypto, key: Bytes, payload: Bytes): (s: Digest96)
    requires Lawful(c)
  {
    c.hmac(key, payload)[..12]
  }

  function AesKey(keyHex: Text): (r: Option<Bytes>)
    ensures r.Some? ==> IsAesKey(r.value)
  {
    var key :- HexToBytes(keyHex);
    if IsAesKey(key) then Some(key) else None
  }

  /** kerberos_encrypt_aes_cts_hmac_sha1; None where it throws. */
  function Encrypt(c: Crypto, plaintext: Bytes, keyHex: Text, usage: u32, confounder: Bytes): (r: Option<Bytes>)
    requires Lawful(c)
  {
    var key :- AesKey(keyHex);
    if |confounder| != 16 then None
    else
      var p := confounder + plaintext;
      Some(c.ctsEncrypt(DerivedKey(c, key, UsageConstant(usage, 0xaa)), p)
           + Mac96(c, DerivedKey(c, key, UsageConstant(usage, 0x55)), p))
  }

  /** Encryption fails only for keys that are no AES keys and confounders of the wrong size, and adds 28 bytes. */
  lemma EncryptSucceeds(c: Crypto, plaintext: Bytes, keyHex: Text, usage: u32, confounder: Bytes)
    requires Lawful(c)
    ensures Encrypt(c, plaintext, keyHex, usage, confounder).Some? <==> AesKey(keyHex).Some? && |confounder| == 16
    ensures var r := Encrypt(c, plaintext, keyHex, usage, confounder);
            r.Some? ==> |r.value| == |plaintext| + 28
  {
    hide AesKey, DerivedKey, Mac96, UsageConstant;
  }

  /** kerberos_decrypt_aes_cts_hmac_sha1 */
  function Decrypt(c: Crypto, ciphertext: Bytes, keyHex: Text, usage: u32): (r: Option<Bytes>)
    requires Lawful(c)
  {
    var key :- AesKey(keyHex);
    if |ciphertext| <= 12 || |ciphertext| - 12 < 16 then None
    else
      var n := |ciphertext| - 12;
      var p := c.ctsDecrypt(DerivedKey(c, key, UsageConstant(usage, 0xaa)), ciphertext[..n]);
      if ciphertext[n..] != Mac96(c, DerivedKey(c, key, UsageConstant(usage, 0x55)), p) then None
      else if |p| <= 16 then None
      else Some(p[16..])
  }

  /** Decryption under the same key and usage gives back exactly the plaintexts that are not empty. */
  lemma {:induction false} DecryptInvertsEncrypt(
      c: Crypto, plaintext: Bytes, keyHex: Text, usage: u32, confounder: Bytes)
    requires Lawful(c)
    ensures var sealed := Encrypt(c, plaintext, keyHex, usage, confounder);
            sealed.Some? ==> (Decrypt(c, sealed.value, keyHex, usage) == Some(plaintext) <==> plaintext != [])
  {
    hide DerivedKey, AesKey, UsageConstant;
    if Encrypt(c, plaintext, keyHex, usage, confounder).Some? {
      var p := confounder + plaintext;
      var ct := Encrypt(c, plaintext, keyHex, usage, confounder).value;
      var ke := DerivedKey(c, AesKey(keyHex).value, UsageConstant(usage, 0xaa));
      assert ct[..|p|] == c.ctsEncrypt(ke, p);
      assert ct[|p|..] == Mac96(c, DerivedKey(c, AesKey(keyHex).value, UsageConstant(usage, 0x55)), p);
      assert p[16..] == plaintext;
    }
  }

  /** kerberos_checksum_aes_hmac_sha1_96 */
  function Checksum(c: Crypto, keyHex: Text, usage: u32, payload: Bytes): (r: Option<Digest96>)
    requires Lawful(c)
  {
    var key :- AesKey(keyHex);
    Some(Mac96(c, DerivedKey(c, key, UsageConstant(usage, 0x99)), payload))
  }

  /** A session key of 16 or 32 bytes is usable through its hexadecimal form. */
  lemma {:induction false} SessionKeyIsUsable(key: Bytes)
    requires IsAesKey(key)
    ensures AesKey(BytesToHex(key)) == Some(key)
  {
    HexRoundTrip(key);
  }
}
