/**
 * TheVault/Program.cs without the console: the file-state checks, the in-place encryption and
 * decryption of a file, the key-info sidecar, and the decisions of HandleEncryption and
 * HandleDecryption. Each Handle method is specified by a pure Run function: the outcome it
 * reports and the writes and deletes it performs, in order.
 */
module Program {
  import opened Bytes
  import opened Wrappers
  import opened Cipher
  import opened FileState
  import opened FileSystem
  import KeyInfo
  import Base64
  import Utf8

  /** Where the key and IV of an encrypted file are kept. */
  function KeyFilePath(path: string): (k: string)
    ensures |k| == |path| + 8 && k[..|path|] == path && k != path
  {
    path + ".keyinfo"
  }

  /** A byte[] holding the given bytes. */
  method ToArray(s: seq<byte>) returns (a: array<byte>)
    ensures fresh(a) && a[..] == s
  {
    a := new byte[|s|](i requires 0 <= i < |s| => s[i]);
  }

  /** Buffer.BlockCopy between two different arrays. */
  method BlockCopy(src: array<byte>, srcOffset: nat, dst: array<byte>, dstOffset: nat, count: nat)
    requires src != dst
    requires srcOffset + count <= src.Length && dstOffset + count <= dst.Length
    modifies dst
    ensures dst[..] == old(dst[..dstOffset]) + src[srcOffset..srcOffset + count] + old(dst[dstOffset + count..])
  {
    var i := 0;
    while i < count
      invariant 0 <= i <= count
      invariant forall j :: 0 <= j < dstOffset ==> dst[j] == old(dst[j])
      invariant forall j :: dstOffset <= j < dstOffset + i ==> dst[j] == src[srcOffset + (j - dstOffset)]
      invariant forall j :: dstOffset + i <= j < dst.Length ==> dst[j] == old(dst[j])
    {
      dst[dstOffset + i] := src[srcOffset + i];
      i := i + 1;
    }
    assert dst[..] == old(dst[..dstOffset]) + src[srcOffset..srcOffset + count] + old(dst[dstOffset + count..]);
  }

  /**
   * IsFileEncrypted: reads at most the first 12 bytes and compares their text with the header.
   * A file shorter than the header is not encrypted.
   */
  method IsFileEncrypted(disk: Disk, path: string) returns (encrypted: bool)
    requires path in disk.files
    ensures encrypted == IsMarked(disk.files[path])
  {
    var headerBytes := HeaderBytes;
    var buffer := new byte[|headerBytes|];
    var bytesRead := disk.Read(path, buffer, buffer.Length);
    if bytesRead != |headerBytes| {
      return false;
    }
    assert buffer[..] == disk.files[path][..|HeaderBytes|];
    HeaderEncoding();
    Utf8.DecodeEqualsAsciiIff(buffer[..], Header);
    return Utf8.Decode(buffer[..]) == Header;
  }

  /** EncryptFileInPlace: the file becomes the header followed by the ciphertext of its content. */
  method EncryptFileInPlace(disk: Disk, c: Cipher, path: string, key: seq<byte>, iv: seq<byte>)
    requires path in disk.files
    requires ValidParameters(key, iv)
    modifies disk
    ensures disk.files == old(disk.files)[path := EncryptContent(c, old(disk.files[path]), key, iv)]
    ensures disk.log == old(disk.log) + [Write(path, EncryptContent(c, old(disk.files[path]), key, iv))]
  {
    var content := disk.ReadAllBytes(path);
    var encrypted := ToArray(c.encrypt(content[..], key, iv));
    var header := ToArray(HeaderBytes);
    var result := new byte[header.Length + encrypted.Length];
    BlockCopy(header, 0, result, 0, header.Length);
    ghost var withHeader := result[..];
    assert withHeader[..header.Length] == HeaderBytes;
    BlockCopy(encrypted, 0, result, header.Length, encrypted.Length);
    assert withHeader[header.Length + encrypted.Length..] == [];
    assert result[..] == HeaderBytes + encrypted[..];
    disk.WriteAllBytes(path, result[..]);
  }

  /**
   * DecryptFileInPlace: a file of 12 bytes or fewer is left alone (the method only prints);
   * otherwise the bytes after the first 12 are decrypted and, unless Decrypt throws, written back.
   */
  method DecryptFileInPlace(disk: Disk, c: Cipher, path: string, key: seq<byte>, iv: seq<byte>)
    returns (d: Decryption)
    requires path in disk.files
    modifies disk
    ensures d == DecryptContent(c, old(disk.files[path]), key, iv)
    ensures d.Plain? ==> disk.files == old(disk.files)[path := d.content]
                         && disk.log == old(disk.log) + [Write(path, d.content)]
    ensures !d.Plain? ==> disk.files == old(disk.files) && disk.log == old(disk.log)
  {
    var fullData := disk.ReadAllBytes(path);
    var headerBytes := HeaderBytes;
    if fullData.Length <= |headerBytes| {
      return TooShort;
    }
    var encryptedData := new byte[fullData.Length - |headerBytes|];
    BlockCopy(fullData, |headerBytes|, encryptedData, 0, encryptedData.Length);
    assert encryptedData[..] == old(disk.files[path])[|HeaderBytes|..];
    var decrypted := c.decrypt(encryptedData[..], key, iv);
    if decrypted.Err? {
      return CipherFailed;
    }
    disk.WriteAllBytes(path, decrypted.value);
    return Plain(decrypted.value);
  }

  /** SaveKeyInfo: "Key=<base64 key>", the new line, "IV=<base64 iv>". */
  method SaveKeyInfo(disk: Disk, keyFilePath: string, key: seq<byte>, iv: seq<byte>, nl: KeyInfo.NewLine)
    modifies disk
    ensures disk.files == old(disk.files)[keyFilePath := Utf8.Encode(KeyInfo.Format(key, iv, nl))]
    ensures disk.log == old(disk.log) + [Write(keyFilePath, Utf8.Encode(KeyInfo.Format(key, iv, nl)))]
  {
    var keyBase64 := Base64.Encode(key);
    var ivBase64 := Base64.Encode(iv);
    var content := "Key=" + keyBase64 + nl.Chars() + "IV=" + ivBase64;
    disk.WriteAllText(keyFilePath, content);
  }

  /** LoadKeyInfo, with its exceptions as errors. */
  method LoadKeyInfo(disk: Disk, keyFilePath: string)
    returns (r: Result<(seq<byte>, seq<byte>), KeyInfo.KeyInfoError>)
    requires keyFilePath in disk.files
    ensures r == KeyInfo.Parse(Utf8.Decode(disk.files[keyFilePath]))
  {
    var lines := disk.ReadAllLines(keyFilePath);
    if |lines| < 2 {
      return Err(KeyInfo.MissingLine(|lines|));
    }
    var keyBase64 := KeyInfo.FieldValue(lines[0]);
    var ivBase64 := KeyInfo.FieldValue(lines[1]);
    var key := Base64.Decode(keyBase64);
    if key.Err? {
      return Err(KeyInfo.BadBase64(0, key.error));
    }
    var iv := Base64.Decode(ivBase64);
    if iv.Err? {
      return Err(KeyInfo.BadBase64(1, iv.error));
    }
    return Ok((key.value, iv.value));
  }

  /** The outcome a Handle method reports and the file operations it performs, in order. */
  datatype Run<O> = Run(outcome: O, ops: seq<Op>)

  /** HandleEncryption's outcome; Encrypted carries the key text shown to the user. */
  datatype EncryptionOutcome = AlreadyEncrypted | Encrypted(shownKey: string)

  /**
   * HandleDecryption's outcome. KeyInfoException is the exception LoadKeyInfo throws outside
   * the try block; DecryptionFailed is the caught exception of DecryptFileInPlace.
   */
  datatype DecryptionOutcome =
    | NotEncrypted
    | KeyFileNotFound
    | KeyInfoException(error: KeyInfo.KeyInfoError)
    | KeyMismatch
    | DecryptionFailed
    | Decrypted

  /** What HandleEncryption does with the file at path and a generated key and IV. */
  function EncryptionRun(files: map<string, seq<byte>>, c: Cipher, path: string,
                         key: seq<byte>, iv: seq<byte>, nl: KeyInfo.NewLine): (r: Run<EncryptionOutcome>)
    requires path in files
    ensures IsMarked(files[path]) ==> r.ops == []
    ensures !IsMarked(files[path]) ==>
              Apply(files, r.ops) == files[path := EncryptContent(c, files[path], key, iv)]
                                          [KeyFilePath(path) := Utf8.Encode(KeyInfo.Format(key, iv, nl))]
  {
    if IsMarked(files[path]) then Run(AlreadyEncrypted, [])
    else
      var write := Write(path, EncryptContent(c, files[path], key, iv));
      var save := Write(KeyFilePath(path), Utf8.Encode(KeyInfo.Format(key, iv, nl)));
      ApplyTwo(files, write, save);
      Run(Encrypted(Base64.Encode(key)), [write, save])
  }

  /** What HandleDecryption does with the file at path when the user enters `entered`. */
  function DecryptionRun(files: map<string, seq<byte>>, c: Cipher, path: string, entered: string)
    : (r: Run<DecryptionOutcome>)
    requires path in files
    ensures r.outcome != Decrypted ==> r.ops == []
    ensures r.outcome == Decrypted ==> |r.ops| >= 1 && r.ops[|r.ops| - 1] == Op.Delete(KeyFilePath(path))
  {
    var keyFile := KeyFilePath(path);
    if !IsMarked(files[path]) then Run(NotEncrypted, [])
    else if keyFile !in files then Run(KeyFileNotFound, [])
    else
      var loaded := KeyInfo.Parse(Utf8.Decode(files[keyFile]));
      if loaded.Err? then Run(KeyInfoException(loaded.error), [])
      else DecryptionWithKey(files, c, path, entered, loaded.value.0, loaded.value.1)
  }

  /** The rest of HandleDecryption, once the sidecar has given a key and an IV. */
  function DecryptionWithKey(files: map<string, seq<byte>>, c: Cipher, path: string, entered: string,
                             key: seq<byte>, iv: seq<byte>): (r: Run<DecryptionOutcome>)
    requires path in files
    ensures r.outcome == Decrypted <==>
              entered == Base64.Encode(key) && !DecryptContent(c, files[path], key, iv).CipherFailed?
    ensures r.outcome != Decrypted ==> r.ops == []
    ensures r.outcome == Decrypted ==> |r.ops| >= 1 && r.ops[|r.ops| - 1] == Op.Delete(KeyFilePath(path))
    ensures r.outcome == Decrypted ==>
              Apply(files, r.ops) == match DecryptContent(c, files[path], key, iv)
                                     case Plain(p) => files[path := p] - {KeyFilePath(path)}
                                     case _ => files - {KeyFilePath(path)}
  {
    if entered != Base64.Encode(key) then Run(KeyMismatch, [])
    else match DecryptContent(c, files[path], key, iv)
      case CipherFailed => Run(DecryptionFailed, [])
      case TooShort =>
        ApplyOne(files, Op.Delete(KeyFilePath(path)));
        Run(Decrypted, [Op.Delete(KeyFilePath(path))])
      case Plain(p) =>
        ApplyTwo(files, Write(path, p), Op.Delete(KeyFilePath(path)));
        Run(Decrypted, [Write(path, p), Op.Delete(KeyFilePath(path))])
  }

  /**
   * HandleEncryption, for a path GetFilePathFromUser has confirmed exists; key and iv stand for
   * the 32 and 16 random bytes of GenerateKeysAndIvs.
   */
  method HandleEncryption(disk: Disk, c: Cipher, path: string, key: seq<byte>, iv: seq<byte>,
                          nl: KeyInfo.NewLine) returns (o: EncryptionOutcome)
    requires path in disk.files
    requires |key| == 32 && |iv| == 16
    modifies disk
    ensures o == EncryptionRun(old(disk.files), c, path, key, iv, nl).outcome
    ensures disk.files == Apply(old(disk.files), EncryptionRun(old(disk.files), c, path, key, iv, nl).ops)
    ensures disk.log == old(disk.log) + EncryptionRun(old(disk.files), c, path, key, iv, nl).ops
  {
    var marked := IsFileEncrypted(disk, path);
    if marked {
      return AlreadyEncrypted;
    }
    ghost var before := disk.files;
    EncryptFileInPlace(disk, c, path, key, iv);
    var keyFile := KeyFilePath(path);
    SaveKeyInfo(disk, keyFile, key, iv, nl);
    ApplyTwo(before, Write(path, EncryptContent(c, before[path], key, iv)),
             Write(keyFile, Utf8.Encode(KeyInfo.Format(key, iv, nl))));
    return Encrypted(Base64.Encode(key));
  }

  /** HandleDecryption, for a path GetFilePathFromUser has confirmed exists. */
  method HandleDecryption(disk: Disk, c: Cipher, path: string, entered: string)
    returns (o: DecryptionOutcome)
    requires path in disk.files
    modifies disk
    ensures o == DecryptionRun(old(disk.files), c, path, entered).outcome
    ensures disk.files == Apply(old(disk.files), DecryptionRun(old(disk.files), c, path, entered).ops)
    ensures disk.log == old(disk.log) + DecryptionRun(old(disk.files), c, path, entered).ops
  {
    ghost var run := DecryptionRun(disk.files, c, path, entered);
    var marked := IsFileEncrypted(disk, path);
    if !marked {
      assert run == Run(NotEncrypted, []);
      return NotEncrypted;
    }
    var keyFile := KeyFilePath(path);
    if !disk.Exists(keyFile) {
      assert run == Run(KeyFileNotFound, []);
      return KeyFileNotFound;
    }
    var loaded := LoadKeyInfo(disk, keyFile);
    if loaded.Err? {
      assert run == Run(KeyInfoException(loaded.error), []);
      return KeyInfoException(loaded.error);
    }
    var key, iv := loaded.value.0, loaded.value.1;
    assert run == DecryptionWithKey(disk.files, c, path, entered, key, iv);
    var savedKeyString := Base64.Encode(key);
    if entered != savedKeyString {
      assert run == Run(KeyMismatch, []);
      return KeyMismatch;
    }
    o := DecryptAndDeleteKeyFile(disk, c, path, entered, key, iv);
  }

  /**
   * The try block of HandleDecryption, entered once the typed key equals the stored one:
   * DecryptFileInPlace, then the deletion of the sidecar; a CryptographicException skips the
   * deletion.
   */
  method DecryptAndDeleteKeyFile(disk: Disk, c: Cipher, path: string, entered: string,
                                 key: seq<byte>, iv: seq<byte>)
    returns (o: DecryptionOutcome)
    requires path in disk.files && entered == Base64.Encode(key)
    modifies disk
    ensures o == DecryptionWithKey(old(disk.files), c, path, entered, key, iv).outcome
    ensures disk.files == Apply(old(disk.files), DecryptionWithKey(old(disk.files), c, path, entered, key, iv).ops)
    ensures disk.log == old(disk.log) + DecryptionWithKey(old(disk.files), c, path, entered, key, iv).ops
  {
    var keyFile := KeyFilePath(path);
    ghost var before := disk.files;
    var d := DecryptFileInPlace(disk, c, path, key, iv);
    if d.CipherFailed? {
      return DecryptionFailed;
    }
    disk.Delete(keyFile);
    if d.Plain? {
      ApplyTwo(before, Write(path, d.content), Op.Delete(keyFile));
    } else {
      ApplyOne(before, Op.Delete(keyFile));
    }
    return Decrypted;
  }

  /** An already encrypted file: HandleEncryption aborts and nothing on disk changes. */
  lemma EncryptionOfMarkedFileChangesNothing(files: map<string, seq<byte>>, c: Cipher, path: string,
                                             key: seq<byte>, iv: seq<byte>, nl: KeyInfo.NewLine)
    requires path in files && IsMarked(files[path])
    ensures EncryptionRun(files, c, path, key, iv, nl).outcome == AlreadyEncrypted
    ensures Apply(files, EncryptionRun(files, c, path, key, iv, nl).ops) == files
  {
  }

  /**
   * HandleEncryption on a plain file touches exactly that file and its sidecar, and reports
   * the base64 of the key.
   */
  lemma EncryptionFootprint(files: map<string, seq<byte>>, c: Cipher, path: string,
                            key: seq<byte>, iv: seq<byte>, nl: KeyInfo.NewLine)
    requires path in files && !IsMarked(files[path])
    ensures EncryptionRun(files, c, path, key, iv, nl).outcome == Encrypted(Base64.Encode(key))
    ensures var after := Apply(files, EncryptionRun(files, c, path, key, iv, nl).ops);
            && after.Keys == files.Keys + {KeyFilePath(path)}
            && forall q :: q in files && q != path && q != KeyFilePath(path) ==> after[q] == files[q]
  {
  }

  /**
   * After HandleEncryption the file is the header followed by the ciphertext of its old
   * content, so it is marked and decrypts back to that content.
   */
  lemma EncryptedFileDecrypts(files: map<string, seq<byte>>, c: Cipher, path: string,
                              key: seq<byte>, iv: seq<byte>, nl: KeyInfo.NewLine)
    requires path in files && !IsMarked(files[path])
    requires Sound(c) && |key| == 32 && |iv| == 16
    ensures var after := Apply(files, EncryptionRun(files, c, path, key, iv, nl).ops);
            && path in after
            && IsMarked(after[path])
            && after[path][|HeaderBytes|..] == c.encrypt(files[path], key, iv)
            && DecryptContent(c, after[path], key, iv) == Plain(files[path])
  {
    var e := EncryptContent(c, files[path], key, iv);
    var after := Apply(files, EncryptionRun(files, c, path, key, iv, nl).ops);
    assert after[path] == e;
    DecryptEncrypt(c, files[path], key, iv);
  }

  /** After HandleEncryption the sidecar loads back to exactly the key and IV used. */
  lemma EncryptedSidecarLoads(files: map<string, seq<byte>>, c: Cipher, path: string,
                              key: seq<byte>, iv: seq<byte>, nl: KeyInfo.NewLine)
    requires path in files && !IsMarked(files[path])
    ensures var after := Apply(files, EncryptionRun(files, c, path, key, iv, nl).ops);
            && KeyFilePath(path) in after
            && KeyInfo.Parse(Utf8.Decode(after[KeyFilePath(path)])) == Ok((key, iv))
  {
    var text := KeyInfo.Format(key, iv, nl);
    var after := Apply(files, EncryptionRun(files, c, path, key, iv, nl).ops);
    assert after[KeyFilePath(path)] == Utf8.Encode(text);
    KeyInfo.FormatIsAscii(key, iv, nl);
    Utf8.DecodeEncodeAscii(text);
    KeyInfo.ParseFormat(key, iv, nl);
  }

  /**
   * HandleEncryption writes the file before the sidecar: a run cut short after the first write
   * leaves an encrypted file whose key can no longer be found.
   */
  lemma EncryptionCrashWindow(files: map<string, seq<byte>>, c: Cipher, path: string,
                              key: seq<byte>, iv: seq<byte>, nl: KeyInfo.NewLine, entered: string)
    requires path in files && !IsMarked(files[path]) && KeyFilePath(path) !in files
    ensures var ops := EncryptionRun(files, c, path, key, iv, nl).ops;
            var cut := Apply(files, ops[..1]);
            && |ops| == 2 && ops[0].path == path && ops[1].path == KeyFilePath(path)
            && path in cut && IsMarked(cut[path]) && KeyFilePath(path) !in cut
            && DecryptionRun(cut, c, path, entered) == Run(KeyFileNotFound, [])
  {
    var ops := EncryptionRun(files, c, path, key, iv, nl).ops;
    assert ops[..1] == [ops[0]];
    ApplyOne(files, ops[0]);
    var cut := Apply(files, ops[..1]);
    assert cut == files[path := EncryptContent(c, files[path], key, iv)];
  }

  /**
   * HandleDecryption changes nothing when the file is not marked, when the sidecar is missing
   * or cannot be loaded, when the entered text is not the base64 of the stored key, or when
   * decryption throws.
   */
  lemma DecryptionChangesNothingUnlessAccepted(files: map<string, seq<byte>>, c: Cipher, path: string,
                                               entered: string)
    requires path in files
    requires || !IsMarked(files[path])
             || KeyFilePath(path) !in files
             || KeyInfo.Parse(Utf8.Decode(files[KeyFilePath(path)])).Err?
             || entered != Base64.Encode(KeyInfo.Parse(Utf8.Decode(files[KeyFilePath(path)])).value.0)
             || DecryptContent(c, files[path], KeyInfo.Parse(Utf8.Decode(files[KeyFilePath(path)])).value.0,
                               KeyInfo.Parse(Utf8.Decode(files[KeyFilePath(path)])).value.1) == CipherFailed
    ensures DecryptionRun(files, c, path, entered).outcome != Decrypted
    ensures Apply(files, DecryptionRun(files, c, path, entered).ops) == files
  {
  }

  /**
   * HandleDecryption reports success only for a marked file whose sidecar exists and loads,
   * when the entered text is the base64 of the stored key and decryption does not throw.
   */
  lemma DecryptionAccepted(files: map<string, seq<byte>>, c: Cipher, path: string, entered: string)
    requires path in files
    requires DecryptionRun(files, c, path, entered).outcome == Decrypted
    ensures IsMarked(files[path]) && KeyFilePath(path) in files
    ensures var info := KeyInfo.Parse(Utf8.Decode(files[KeyFilePath(path)]));
            && info.Ok?
            && entered == Base64.Encode(info.value.0)
            && DecryptContent(c, files[path], info.value.0, info.value.1) != CipherFailed
            && DecryptionRun(files, c, path, entered)
               == DecryptionWithKey(files, c, path, entered, info.value.0, info.value.1)
  {
  }

  /**
   * The converse of DecryptionAccepted: a marked file whose sidecar exists and loads, with the
   * base64 of the stored key entered and a decryption that does not throw, is reported
   * decrypted, and the sidecar is deleted (a file too short to hold a payload included).
   */
  lemma AcceptedDecrypts(files: map<string, seq<byte>>, c: Cipher, path: string, entered: string)
    requires path in files && IsMarked(files[path]) && KeyFilePath(path) in files
    requires KeyInfo.Parse(Utf8.Decode(files[KeyFilePath(path)])).Ok?
    requires entered == Base64.Encode(KeyInfo.Parse(Utf8.Decode(files[KeyFilePath(path)])).value.0)
    requires DecryptContent(c, files[path], KeyInfo.Parse(Utf8.Decode(files[KeyFilePath(path)])).value.0,
                            KeyInfo.Parse(Utf8.Decode(files[KeyFilePath(path)])).value.1) != CipherFailed
    ensures DecryptionRun(files, c, path, entered).outcome == Decrypted
    ensures KeyFilePath(path) !in Apply(files, DecryptionRun(files, c, path, entered).ops)
  {
    var info := KeyInfo.Parse(Utf8.Decode(files[KeyFilePath(path)]));
    assert DecryptionRun(files, c, path, entered)
        == DecryptionWithKey(files, c, path, entered, info.value.0, info.value.1);
  }

  /**
   * A file holding the header and nothing else, with a loadable sidecar and the right key
   * entered: DecryptFileInPlace returns early, and HandleDecryption still reports success and
   * deletes the sidecar, leaving the file as it was.
   */
  lemma BareHeaderDecrypts(files: map<string, seq<byte>>, c: Cipher, path: string, entered: string)
    requires path in files && files[path] == HeaderBytes && KeyFilePath(path) in files
    requires KeyInfo.Parse(Utf8.Decode(files[KeyFilePath(path)])).Ok?
    requires entered == Base64.Encode(KeyInfo.Parse(Utf8.Decode(files[KeyFilePath(path)])).value.0)
    ensures DecryptionRun(files, c, path, entered).outcome == Decrypted
    ensures Apply(files, DecryptionRun(files, c, path, entered).ops) == files - {KeyFilePath(path)}
  {
    var info := KeyInfo.Parse(Utf8.Decode(files[KeyFilePath(path)]));
    assert IsMarked(files[path]);
    assert DecryptContent(c, files[path], info.value.0, info.value.1) == TooShort;
    assert DecryptionRun(files, c, path, entered)
        == DecryptionWithKey(files, c, path, entered, info.value.0, info.value.1);
  }

  /**
   * When HandleDecryption reports success the sidecar is gone and the file holds the
   * decryption of its payload, or, for a marked file of exactly 12 bytes, is unchanged;
   * no other file changes.
   */
  lemma DecryptionEffect(files: map<string, seq<byte>>, c: Cipher, path: string, entered: string)
    requires path in files
    requires DecryptionRun(files, c, path, entered).outcome == Decrypted
    ensures var after := Apply(files, DecryptionRun(files, c, path, entered).ops);
            && after.Keys == files.Keys - {KeyFilePath(path)}
            && (forall q :: q in after && q != path ==> after[q] == files[q])
    ensures var after := Apply(files, DecryptionRun(files, c, path, entered).ops);
            var info := KeyInfo.Parse(Utf8.Decode(files[KeyFilePath(path)]));
            && KeyFilePath(path) in files && info.Ok? && path in after
            && match DecryptContent(c, files[path], info.value.0, info.value.1)
               case Plain(p) => after[path] == p
               case TooShort => after[path] == files[path] && |files[path]| == |HeaderBytes|
               case CipherFailed => false
  {
    DecryptionAccepted(files, c, path, entered);
    var info := KeyInfo.Parse(Utf8.Decode(files[KeyFilePath(path)]));
    assert DecryptionRun(files, c, path, entered)
        == DecryptionWithKey(files, c, path, entered, info.value.0, info.value.1);
    DecryptionWithKeyEffect(files, c, path, entered, info.value.0, info.value.1);
  }

  /** DecryptionEffect once the sidecar has given a key and an IV. */
  lemma DecryptionWithKeyEffect(files: map<string, seq<byte>>, c: Cipher, path: string, entered: string,
                                key: seq<byte>, iv: seq<byte>)
    requires path in files
    requires DecryptionWithKey(files, c, path, entered, key, iv).outcome == Decrypted
    ensures var after := Apply(files, DecryptionWithKey(files, c, path, entered, key, iv).ops);
            && after.Keys == files.Keys - {KeyFilePath(path)}
            && (forall q :: q in after && q != path ==> after[q] == files[q])
            && path in after
            && match DecryptContent(c, files[path], key, iv)
               case Plain(p) => after[path] == p
               case TooShort => after[path] == files[path] && |files[path]| <= |HeaderBytes|
               case CipherFailed => false
  {
    var keyFile := KeyFilePath(path);
    var after := Apply(files, DecryptionWithKey(files, c, path, entered, key, iv).ops);
    match DecryptContent(c, files[path], key, iv) {
      case Plain(p) =>
        assert after == files[path := p] - {keyFile};
      case TooShort =>
        assert after == files - {keyFile};
    }
  }

  /**
   * The round trip through both menu options: encrypt a plain file, then decrypt it entering the
   * key that was shown. Decryption succeeds, the file holds its original bytes again and the
   * sidecar is gone; every other file is as it was before.
   */
  lemma EncryptThenDecryptRestores(files: map<string, seq<byte>>, c: Cipher, path: string,
                                   key: seq<byte>, iv: seq<byte>, nl: KeyInfo.NewLine)
    requires path in files && !IsMarked(files[path])
    requires Sound(c) && |key| == 32 && |iv| == 16
    ensures var enc := EncryptionRun(files, c, path, key, iv, nl);
            var encrypted := Apply(files, enc.ops);
            var dec := DecryptionRun(encrypted, c, path, enc.outcome.shownKey);
            && dec.outcome == Decrypted
            && Apply(encrypted, dec.ops) == files - {KeyFilePath(path)}
  {
    var keyFile := KeyFilePath(path);
    var e := EncryptContent(c, files[path], key, iv);
    var enc := EncryptionRun(files, c, path, key, iv, nl);
    var encrypted := Apply(files, enc.ops);
    assert encrypted == files[path := e][keyFile := Utf8.Encode(KeyInfo.Format(key, iv, nl))];
    EncryptedFileDecrypts(files, c, path, key, iv, nl);
    EncryptedSidecarLoads(files, c, path, key, iv, nl);
    var dec := DecryptionRun(encrypted, c, path, enc.outcome.shownKey);
    assert dec == DecryptionWithKey(encrypted, c, path, Base64.Encode(key), key, iv);
    RestoreThenRemove(files, path, e, keyFile, Utf8.Encode(KeyInfo.Format(key, iv, nl)));
  }

  /** Overwriting a file, adding another, then restoring the first and removing the second. */
  lemma RestoreThenRemove<V>(m: map<string, V>, path: string, v: V, other: string, w: V)
    requires path in m && path != other
    ensures m[path := v][other := w][path := m[path]] - {other} == m - {other}
  {
    var lhs := m[path := v][other := w][path := m[path]] - {other};
    assert lhs.Keys == (m - {other}).Keys;
  }

  /** Entering anything other than the key that was shown leaves the encrypted file and its sidecar alone. */
  lemma WrongEntryAfterEncryptionChangesNothing(files: map<string, seq<byte>>, c: Cipher, path: string,
                                                key: seq<byte>, iv: seq<byte>, nl: KeyInfo.NewLine,
                                                entered: string)
    requires path in files && !IsMarked(files[path])
    requires Sound(c) && |key| == 32 && |iv| == 16
    requires entered != Base64.Encode(key)
    ensures var encrypted := Apply(files, EncryptionRun(files, c, path, key, iv, nl).ops);
            && DecryptionRun(encrypted, c, path, entered) == Run(KeyMismatch, [])
  {
    var encrypted := Apply(files, EncryptionRun(files, c, path, key, iv, nl).ops);
    EncryptionFootprint(files, c, path, key, iv, nl);
    EncryptedFileDecrypts(files, c, path, key, iv, nl);
    EncryptedSidecarLoads(files, c, path, key, iv, nl);
    assert DecryptionRun(encrypted, c, path, entered)
        == DecryptionWithKey(encrypted, c, path, entered, key, iv);
  }
}
