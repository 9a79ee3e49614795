/**
 * The cipher behind Encryption.Encrypt and Encryption.Decrypt (.NET Aes with its defaults:
 * CBC mode, 16-byte blocks, PKCS7 padding). The algorithm itself is not modelled: a Cipher is
 * any pair of functions, and Sound states what the library promises about them.
 */
module Cipher {
  import opened Bytes
  import opened Wrappers

  /** System.Security.Cryptography.CryptographicException. */
  datatype CryptoError = CryptographicException

  datatype Cipher = Cipher(
    encrypt: (seq<byte>, seq<byte>, seq<byte>) -> seq<byte>,
    decrypt: (seq<byte>, seq<byte>, seq<byte>) -> Result<seq<byte>, CryptoError>)

  const BlockSize: nat := 16
  const IvSize: nat := 16

  /** The key sizes Aes accepts: 128, 192 and 256 bits. */
  predicate ValidKeySize(key: seq<byte>) {
    |key| == 16 || |key| == 24 || |key| == 32
  }

  predicate ValidParameters(key: seq<byte>, iv: seq<byte>) {
    ValidKeySize(key) && |iv| == IvSize
  }

  /**
   * What the library guarantees: with a valid key and IV, decrypting an encryption gives the
   * plaintext back, and the ciphertext is whole blocks with at least one byte of padding;
   * with an invalid key or IV size, decryption throws.
   */
  ghost predicate Sound(c: Cipher) {
    && (forall p, key, iv :: ValidParameters(key, iv) ==>
          c.decrypt(c.encrypt(p, key, iv), key, iv) == Ok(p))
    && (forall p, key, iv :: ValidParameters(key, iv) ==>
          |c.encrypt(p, key, iv)| % BlockSize == 0 && |c.encrypt(p, key, iv)| > |p|)
    && (forall x, key, iv :: !ValidParameters(key, iv) ==> c.decrypt(x, key, iv).Err?)
  }

  /** PKCS7 padding: 1 to 16 bytes, each holding the number of bytes added. */
  function Pad(p: seq<byte>): (r: seq<byte>)
    ensures |r| % BlockSize == 0 && |r| > |p| && r[..|p|] == p
  {
    var n := BlockSize - |p| % BlockSize;
    p + seq(n, _ => n)
  }

  function Unpad(x: seq<byte>): Result<seq<byte>, CryptoError> {
    if |x| == 0 || |x| % BlockSize != 0 then Err(CryptographicException)
    else
      var n := x[|x| - 1];
      if n < 1 || n > BlockSize then Err(CryptographicException)
      else if exists i :: |x| - n <= i < |x| && x[i] != n then Err(CryptographicException)
      else Ok(x[..|x| - n])
  }

  lemma UnpadPad(p: seq<byte>)
    ensures Unpad(Pad(p)) == Ok(p)
  {
    var n := BlockSize - |p| % BlockSize;
    var r := Pad(p);
    assert r[|r| - 1] == n;
    assert forall i :: |r| - n <= i < |r| ==> r[i] == n;
    assert r[..|r| - n] == p;
  }

  /**
   * Padding without encryption. It is not AES: it shows that Sound can be met, so the
   * theorems that assume it are not vacuous.
   */
  function PaddingOnlyCipher(): Cipher {
    Cipher(
      (p, key, iv) => Pad(p),
      (x, key, iv) => if ValidParameters(key, iv) then Unpad(x) else Err(CryptographicException))
  }

  lemma PaddingOnlyCipherIsSound()
    ensures Sound(PaddingOnlyCipher())
  {
    var c := PaddingOnlyCipher();
    forall p, key, iv | ValidParameters(key, iv)
      ensures c.decrypt(c.encrypt(p, key, iv), key, iv) == Ok(p)
    {
      UnpadPad(p);
    }
  }

  /**
   * Sound does not make a wrong key fail: under the padding-only cipher, which is sound, a
   * ciphertext decrypts under any valid key. Rejection of a wrong key is thus not a consequence
   * of what the library promises (with AES it is a padding check that can pass by chance).
   */
  lemma SoundAcceptsSomeWrongKeys(p: seq<byte>, key: seq<byte>, other: seq<byte>, iv: seq<byte>)
    requires ValidParameters(key, iv) && ValidParameters(other, iv)
    ensures Sound(PaddingOnlyCipher())
    ensures PaddingOnlyCipher().decrypt(PaddingOnlyCipher().encrypt(p, key, iv), other, iv) == Ok(p)
  {
    PaddingOnlyCipherIsSound();
    UnpadPad(p);
  }
}
