/** Key generation and the AES-GCM envelope: generateKey, encrypt and decrypt.

    AES and GCM themselves are not modelled. Seal and Open below are a
    stand-in with GCM's shape (a 12-byte nonce, output 16 bytes longer than the
    input, Open failing on input shorter than the tag or on a tag mismatch);
    what the rest of the model relies on is only that Open undoes Seal under
    the same key and nonce, which is proved here (OpenSeal) rather than assumed. */
module Crypto {
  import opened Base

  /** aes.BlockSize: generateKey draws this many bytes, so keys are AES-128. */
  const BlockSize: nat := 16
  /** gcm.NonceSize() of cipher.NewGCM: the standard 96-bit nonce of NIST SP 800-38D. */
  const NonceSize: nat := 12
  /** gcm.Overhead(): the length of the authentication tag. */
  const TagSize: nat := 16

  /** The key lengths aes.NewCipher accepts (AES-128, AES-192, AES-256). */
  predicate ValidKeySize(n: nat) {
    n == 16 || n == 24 || n == 32
  }

  /** generateKey: BlockSize bytes from crypto/rand, or the read's error and no key. */
  function GenerateKey(random: Option<seq<byte>>): (r: Result<seq<byte>>)
    ensures r.Ok? <==> random.Some? && BlockSize <= |random.value|
    ensures r.Ok? ==> |r.value| == BlockSize && ValidKeySize(|r.value|)
    ensures r.Err? ==> r.error == RandomnessUnavailable
  {
    ReadFull(random, BlockSize)
  }

  // ---- stand-in for gcm.Seal / gcm.Open ----

  /** The keystream byte at position i. */
  function Pad(key: seq<byte>, nonce: seq<byte>, i: nat): byte
    requires |key| > 0 && |nonce| > 0
  {
    ((key[i % |key|] as int + nonce[i % |nonce|] as int + i) % 256) as byte
  }

  function Mask(key: seq<byte>, nonce: seq<byte>, p: seq<byte>): seq<byte>
    requires |key| > 0 && |nonce| > 0
  {
    seq(|p|, i requires 0 <= i < |p| => ((p[i] as int + Pad(key, nonce, i) as int) % 256) as byte)
  }

  function Unmask(key: seq<byte>, nonce: seq<byte>, c: seq<byte>): seq<byte>
    requires |key| > 0 && |nonce| > 0
  {
    seq(|c|, i requires 0 <= i < |c| => ((c[i] as int - Pad(key, nonce, i) as int) % 256) as byte)
  }

  /** A running checksum of the masked body, folded into the tag. */
  function Checksum(c: seq<byte>): byte
  {
    if c == [] then 0 else ((Checksum(c[..|c| - 1]) as int * 31 + c[|c| - 1] as int) % 256) as byte
  }

  /** The tag: depends on the body, the nonce, the key's bytes and the key's
      length. */
  function Tag(key: seq<byte>, nonce: seq<byte>, body: seq<byte>): (t: seq<byte>)
    requires |key| > 0 && |nonce| > 0
    ensures |t| == TagSize
  {
    seq(TagSize, j requires 0 <= j < TagSize =>
      ((Checksum(body) as int + |key| + key[j % |key|] as int + nonce[j % |nonce|] as int + j) % 256) as byte)
  }

  /** gcm.Seal without associated data: the masked plaintext and then the tag. */
  function Seal(key: seq<byte>, nonce: seq<byte>, plaintext: seq<byte>): (c: seq<byte>)
    requires ValidKeySize(|key|) && |nonce| == NonceSize
    ensures |c| == |plaintext| + TagSize
  {
    var body := Mask(key, nonce, plaintext);
    body + Tag(key, nonce, body)
  }

  /** gcm.Open without associated data: fails unless the input carries a tag and
      the tag matches; otherwise the unmasked body. */
  function Open(key: seq<byte>, nonce: seq<byte>, c: seq<byte>): (r: Result<seq<byte>>)
    requires ValidKeySize(|key|) && |nonce| == NonceSize
    ensures |c| < TagSize ==> r == Err(AuthenticationFailed)
    ensures r.Ok? ==> |r.value| + TagSize == |c|
    ensures r.Err? ==> r.error == AuthenticationFailed
  {
    if |c| < TagSize then Err(AuthenticationFailed)
    else
      var body, tag := c[..|c| - TagSize], c[|c| - TagSize..];
      if tag != Tag(key, nonce, body) then Err(AuthenticationFailed)
      else Ok(Unmask(key, nonce, body))
  }

  /** Open undoes Seal under the same key and nonce. */
  lemma OpenSeal(key: seq<byte>, nonce: seq<byte>, p: seq<byte>)
    requires ValidKeySize(|key|) && |nonce| == NonceSize
    ensures Open(key, nonce, Seal(key, nonce, p)) == Ok(p)
  {
    var body := Mask(key, nonce, p);
    var c := Seal(key, nonce, p);
    assert c[..|c| - TagSize] == body;
    assert c[|c| - TagSize..] == Tag(key, nonce, body);
    var q := Unmask(key, nonce, body);
    forall i | 0 <= i < |p| ensures q[i] == p[i] {
      var k := Pad(key, nonce, i) as int;
      assert body[i] as int == (p[i] as int + k) % 256;
      assert q[i] as int == (body[i] as int - k) % 256;
      AddSubMod(p[i] as int, k);
    }
    assert q == p;
  }

  /** A longer key that begins with the sealing key does not open the
      envelope: the tag binds the key's length. */
  lemma OpenWithExtendedKeyFails(key: seq<byte>, longer: seq<byte>, nonce: seq<byte>, p: seq<byte>)
    requires ValidKeySize(|key|) && ValidKeySize(|longer|) && |nonce| == NonceSize
    requires |key| < |longer| && longer[..|key|] == key
    ensures Open(longer, nonce, Seal(key, nonce, p)).Err?
  {
    var body := Mask(key, nonce, p);
    var c := Seal(key, nonce, p);
    assert c[..|c| - TagSize] == body;
    assert c[|c| - TagSize..] == Tag(key, nonce, body);
    TagBindsKeyLength(key, longer, nonce, body);
  }

  /** Keys of different lengths with the same first byte give different tags. */
  lemma TagBindsKeyLength(key: seq<byte>, longer: seq<byte>, nonce: seq<byte>, body: seq<byte>)
    requires ValidKeySize(|key|) && ValidKeySize(|longer|) && |nonce| == NonceSize
    requires |key| < |longer| && longer[0] == key[0]
    ensures Tag(longer, nonce, body) != Tag(key, nonce, body)
  {
    var x := Checksum(body) as int + key[0] as int + nonce[0] as int;
    assert Tag(key, nonce, body)[0] as int == (x + |key|) % 256;
    assert Tag(longer, nonce, body)[0] as int == (x + |key| + (|longer| - |key|)) % 256;
    ShiftChangesResidue(x + |key|, |longer| - |key|);
  }

  lemma ShiftChangesResidue(a: int, d: int)
    requires 0 < d < 256
    ensures a % 256 != (a + d) % 256
  {
  }

  /** Adding and then subtracting k modulo 256 leaves a byte unchanged. */
  lemma AddSubMod(x: int, k: int)
    requires 0 <= x < 256 && 0 <= k < 256
    ensures ((x + k) % 256 - k) % 256 == x
  {
  }

  // ---- the service's own functions ----

  /** encrypt: builds an AES cipher and GCM over `key`, draws a fresh nonce and
      returns nonce ‖ Seal(nonce, plaintext). Fails when the key has a length
      AES rejects or when crypto/rand cannot supply the nonce. */
  function Encrypt(plaintext: seq<byte>, key: seq<byte>, random: Option<seq<byte>>): (r: Result<seq<byte>>)
    ensures !ValidKeySize(|key|) ==> r == Err(KeySize(|key|))
    ensures ValidKeySize(|key|) ==>
              (r.Ok? <==> random.Some? && NonceSize <= |random.value|)
    ensures r.Ok? ==> |r.value| == NonceSize + |plaintext| + TagSize
    ensures r.Ok? ==> r.value[..NonceSize] == random.value[..NonceSize]
    ensures r.Ok? ==> r.value[NonceSize..] == Seal(key, random.value[..NonceSize], plaintext)
  {
    if !ValidKeySize(|key|) then Err(KeySize(|key|))
    else
      match ReadFull(random, NonceSize)
      case Err(e) => Err(e)
      case Ok(nonce) => Ok(nonce + Seal(key, nonce, plaintext))
  }

  /** decrypt: rejects a key AES does not accept and input shorter than the
      nonce; otherwise opens what follows the nonce-sized prefix, with that
      prefix as the nonce. */
  function Decrypt(cipherText: seq<byte>, key: seq<byte>): (r: Result<seq<byte>>)
    ensures !ValidKeySize(|key|) ==> r == Err(KeySize(|key|))
    ensures ValidKeySize(|key|) && |cipherText| < NonceSize ==> r == Err(CipherTextTooShort)
    ensures ValidKeySize(|key|) && NonceSize <= |cipherText| ==>
              r == Open(key, cipherText[..NonceSize], cipherText[NonceSize..])
    ensures r.Ok? ==> |r.value| + NonceSize + TagSize == |cipherText|
  {
    if !ValidKeySize(|key|) then Err(KeySize(|key|))
    else if |cipherText| < NonceSize then Err(CipherTextTooShort)
    else
      var nonce, sealed := cipherText[..NonceSize], cipherText[NonceSize..];
      Open(key, nonce, sealed)
  }

  /** The framing round trip: decrypting, under the same key, an envelope that
      encrypt produced gives back the plaintext. */
  lemma DecryptEncrypt(plaintext: seq<byte>, key: seq<byte>, random: Option<seq<byte>>)
    requires Encrypt(plaintext, key, random).Ok?
    ensures Decrypt(Encrypt(plaintext, key, random).value, key) == Ok(plaintext)
  {
    var nonce := random.value[..NonceSize];
    var envelope := Encrypt(plaintext, key, random).value;
    assert envelope == nonce + Seal(key, nonce, plaintext);
    assert envelope[..NonceSize] == nonce;
    assert envelope[NonceSize..] == Seal(key, nonce, plaintext);
    OpenSeal(key, nonce, plaintext);
  }
}
