/**
 * The file-state protocol of TheVault/Program.cs: a file is "encrypted" exactly when it starts
 * with the 12 bytes of "[ENCRYPTED]\n"; encryption puts them in front of the ciphertext and
 * decryption takes them off again.
 */
module FileState {
  import opened Bytes
  import opened Wrappers
  import opened Cipher
  import Utf8

  /** ENCRYPTED_HEADER. */
  const Header: string := "[ENCRYPTED]\n"

  /**
   * Encoding.UTF8.GetBytes(ENCRYPTED_HEADER), which HeaderEncoding confirms:
   * '[', 'E', 'N', 'C', 'R', 'Y', 'P', 'T', 'E', 'D', ']', '\n'.
   */
  const HeaderBytes: seq<byte> := [0x5B, 0x45, 0x4E, 0x43, 0x52, 0x59, 0x50, 0x54, 0x45, 0x44, 0x5D, 0x0A]

  lemma HeaderEncoding()
    ensures Utf8.IsAscii(Header)
    ensures Utf8.Encode(Header) == HeaderBytes && |HeaderBytes| == 12
  {
    assert Utf8.IsAscii(Header);
    Utf8.EncodeAsciiCodes(Header, HeaderBytes);
  }

  /** The file starts with the header. */
  predicate IsMarked(data: seq<byte>): (m: bool)
    ensures m <==> |data| >= |HeaderBytes| && forall i :: 0 <= i < |HeaderBytes| ==> data[i] == HeaderBytes[i]
  {
    |data| >= |HeaderBytes| && data[..|HeaderBytes|] == HeaderBytes
  }

  /** Whether a file is marked depends on its first 12 bytes only. */
  lemma MarkedByFirstBytes(data: seq<byte>, other: seq<byte>)
    requires Min(|data|, |HeaderBytes|) == Min(|other|, |HeaderBytes|)
    requires data[..Min(|data|, |HeaderBytes|)] == other[..Min(|other|, |HeaderBytes|)]
    ensures IsMarked(data) <==> IsMarked(other)
  {
  }

  /** The header in front of the payload. */
  function Attach(payload: seq<byte>): (r: seq<byte>)
    ensures IsMarked(r)
    ensures |r| == |HeaderBytes| + |payload| && r[|HeaderBytes|..] == payload
  {
    HeaderBytes + payload
  }

  /** What EncryptFileInPlace writes for content p. */
  function EncryptContent(c: Cipher, p: seq<byte>, key: seq<byte>, iv: seq<byte>): (r: seq<byte>)
    ensures IsMarked(r)
    ensures Sound(c) && ValidParameters(key, iv) ==> |r| > |HeaderBytes| && |r| > |p|
  {
    Attach(c.encrypt(p, key, iv))
  }

  /**
   * What DecryptFileInPlace makes of a file: nothing when it has 12 bytes or fewer, otherwise
   * the decryption of everything after the first 12 bytes, whether or not they are the header.
   */
  datatype Decryption = TooShort | CipherFailed | Plain(content: seq<byte>)

  function DecryptContent(c: Cipher, data: seq<byte>, key: seq<byte>, iv: seq<byte>): (r: Decryption)
    ensures r.TooShort? <==> |data| <= |HeaderBytes|
    ensures r.Plain? <==> |data| > |HeaderBytes| && c.decrypt(data[|HeaderBytes|..], key, iv).Ok?
    ensures r.Plain? ==> c.decrypt(data[|HeaderBytes|..], key, iv) == Ok(r.content)
  {
    if |data| <= |HeaderBytes| then TooShort
    else match c.decrypt(data[|HeaderBytes|..], key, iv)
      case Ok(p) => Plain(p)
      case Err(_) => CipherFailed
  }

  /** Decrypting the content EncryptFileInPlace wrote gives the original content back. */
  lemma DecryptEncrypt(c: Cipher, p: seq<byte>, key: seq<byte>, iv: seq<byte>)
    requires Sound(c) && ValidParameters(key, iv)
    ensures DecryptContent(c, EncryptContent(c, p, key, iv), key, iv) == Plain(p)
  {
    var e := c.encrypt(p, key, iv);
    assert EncryptContent(c, p, key, iv)[|HeaderBytes|..] == e;
  }

  /** The first 12 bytes are dropped unread: files that differ only there decrypt alike. */
  lemma DecryptIgnoresFirstBytes(c: Cipher, data: seq<byte>, other: seq<byte>, key: seq<byte>, iv: seq<byte>)
    requires |data| == |other|
    requires |data| > |HeaderBytes| ==> data[|HeaderBytes|..] == other[|HeaderBytes|..]
    ensures DecryptContent(c, data, key, iv) == DecryptContent(c, other, key, iv)
  {
  }

  /** A wrong key or IV that the cipher rejects leaves nothing to write. */
  lemma DecryptFailsOnlyByCipher(c: Cipher, data: seq<byte>, key: seq<byte>, iv: seq<byte>)
    ensures DecryptContent(c, data, key, iv) == CipherFailed
        <==> |data| > |HeaderBytes| && c.decrypt(data[|HeaderBytes|..], key, iv).Err?
  {
  }
}
