/**
 * The two scenarios of ProgramTest/UnitTest1.cs, run against the model of Program.cs (the test
 * class carries its own copies of EncryptFileInPlace, DecryptFileInPlace, SaveKeyInfo,
 * LoadKeyInfo and IsFileEncrypted, identical to those of Program.cs). The random key and IV of
 * GenerateKeysAndIvs are parameters, and the AES library is any sound cipher.
 */
module ProgramTests {
  import opened Bytes
  import opened Wrappers
  import opened Cipher
  import opened FileState
  import opened FileSystem
  import opened Program
  import KeyInfo
  import Utf8

  /** The text and file of the restore scenario, the text in pieces short enough to inspect. */
  const RestoreContent: string := "This is a test file" + " for the encryption" + " and decryption methods."
  const RestoreFile: string := "temp_test_file.txt"

  /** The text and file of the wrong-key scenario. */
  const BadKeyContent: string := "This is a test file" + " to check for incorrect" + " key decryption."
  const BadKeyFile: string := "temp_badkey_test_file.txt"

  lemma RestoreContentIsAscii()
    ensures Utf8.IsAscii(RestoreContent) && RestoreContent[0] == 'T'
  {
    var a, b, d := "This is a test file", " for the encryption", " and decryption methods.";
    assert Utf8.IsAscii(a) && Utf8.IsAscii(b) && Utf8.IsAscii(d);
    Utf8.AsciiConcat(a, b);
    Utf8.AsciiConcat(a + b, d);
  }

  /** Text written with WriteAllText that starts with a character other than '[' is not marked. */
  lemma AsciiTextIsNotMarked(s: string)
    requires Utf8.IsAscii(s) && s != [] && s[0] != '['
    ensures !IsMarked(Utf8.Encode(s))
  {
    var b := Utf8.Encode(s);
    assert b[0] == s[0] as int;
    if |b| >= |HeaderBytes| {
      assert b[..|HeaderBytes|][0] != HeaderBytes[0];
    }
  }

  /** Deleting the test file and its sidecar where they exist, before and after each scenario. */
  method CleanUp(disk: Disk, testFileName: string, keyFileName: string)
    modifies disk
    ensures disk.files == old(disk.files) - {testFileName, keyFileName}
  {
    if disk.Exists(testFileName) { disk.Delete(testFileName); }
    if disk.Exists(keyFileName) { disk.Delete(keyFileName); }
    assert disk.files == old(disk.files) - {testFileName, keyFileName};
  }

  /**
   * The restore scenario: the file is reported encrypted after EncryptFileInPlace, its text then
   * differs from the original, after LoadKeyInfo and DecryptFileInPlace its text is the original
   * again and it is no longer reported encrypted; cleanup removes both files and nothing else.
   */
  method EncryptAndDecryptFileShouldRestoreOriginalContent(disk: Disk, c: Cipher, key: seq<byte>,
                                                           iv: seq<byte>, nl: KeyInfo.NewLine)
    returns (encryptedAfterEncrypt: bool, textChanged: bool, textRestored: bool, encryptedAtEnd: bool)
    requires Sound(c) && |key| == 32 && |iv| == 16
    modifies disk
    ensures encryptedAfterEncrypt && textChanged && textRestored && !encryptedAtEnd
    ensures disk.files == old(disk.files) - {RestoreFile, KeyFilePath(RestoreFile)}
  {
    RestoreContentIsAscii();
    encryptedAfterEncrypt, textChanged, textRestored, encryptedAtEnd :=
      RestoreScenario(disk, c, key, iv, nl, RestoreContent, RestoreFile);
  }

  /** The restore scenario for any ASCII text that does not start with '['. */
  method RestoreScenario(disk: Disk, c: Cipher, key: seq<byte>, iv: seq<byte>, nl: KeyInfo.NewLine,
                         testContent: string, testFileName: string)
    returns (encryptedAfterEncrypt: bool, textChanged: bool, textRestored: bool, encryptedAtEnd: bool)
    requires Sound(c) && |key| == 32 && |iv| == 16
    requires Utf8.IsAscii(testContent) && testContent != [] && testContent[0] != '['
    modifies disk
    ensures encryptedAfterEncrypt && textChanged && textRestored && !encryptedAtEnd
    ensures disk.files == old(disk.files) - {testFileName, KeyFilePath(testFileName)}
  {
    var keyFileName := KeyFilePath(testFileName);
    assert testFileName != keyFileName;
    CleanUp(disk, testFileName, keyFileName);
    ghost var cleaned := disk.files;
    disk.WriteAllText(testFileName, testContent);
    encryptedAfterEncrypt, textChanged := EncryptPhase(disk, c, key, iv, nl, testContent, testFileName);
    textRestored, encryptedAtEnd := DecryptPhase(disk, c, key, iv, nl, testContent, testFileName);
    ghost var plain, encrypted := Utf8.Encode(testContent), EncryptContent(c, Utf8.Encode(testContent), key, iv);
    ghost var saved := Utf8.Encode(KeyInfo.Format(key, iv, nl));
    assert disk.files == cleaned[testFileName := plain][testFileName := encrypted][keyFileName := saved]
                                [testFileName := plain];
    CleanUp(disk, testFileName, keyFileName);
    RemoveWrittenPair(cleaned, testFileName, keyFileName, plain, encrypted, saved);
  }

  /**
   * The first half of the restore scenario: EncryptFileInPlace and SaveKeyInfo, after which
   * IsFileEncrypted holds and ReadAllText no longer gives the original text.
   */
  method EncryptPhase(disk: Disk, c: Cipher, key: seq<byte>, iv: seq<byte>, nl: KeyInfo.NewLine,
                      testContent: string, testFileName: string)
    returns (encryptedAfterEncrypt: bool, textChanged: bool)
    requires Sound(c) && |key| == 32 && |iv| == 16
    requires testFileName in disk.files && disk.files[testFileName] == Utf8.Encode(testContent)
    requires testContent != [] && testContent[0] != '['
    modifies disk
    ensures encryptedAfterEncrypt && textChanged
    ensures disk.files == old(disk.files)[testFileName := EncryptContent(c, Utf8.Encode(testContent), key, iv)]
                                         [KeyFilePath(testFileName) := Utf8.Encode(KeyInfo.Format(key, iv, nl))]
  {
    var keyFileName := KeyFilePath(testFileName);
    EncryptFileInPlace(disk, c, testFileName, key, iv);
    SaveKeyInfo(disk, keyFileName, key, iv, nl);
    assert disk.files[testFileName] == EncryptContent(c, Utf8.Encode(testContent), key, iv);
    encryptedAfterEncrypt := IsFileEncrypted(disk, testFileName);
    var encryptedText := disk.ReadAllText(testFileName);
    assert encryptedText[0] == '[';
    textChanged := testContent != encryptedText;
  }

  /**
   * The second half of the restore scenario: LoadKeyInfo and DecryptFileInPlace, after which
   * ReadAllText gives the original text and IsFileEncrypted does not hold.
   */
  method DecryptPhase(disk: Disk, c: Cipher, key: seq<byte>, iv: seq<byte>, nl: KeyInfo.NewLine,
                      testContent: string, testFileName: string)
    returns (textRestored: bool, encryptedAtEnd: bool)
    requires Sound(c) && |key| == 32 && |iv| == 16
    requires Utf8.IsAscii(testContent) && testContent != [] && testContent[0] != '['
    requires testFileName in disk.files && KeyFilePath(testFileName) in disk.files
    requires disk.files[testFileName] == EncryptContent(c, Utf8.Encode(testContent), key, iv)
    requires disk.files[KeyFilePath(testFileName)] == Utf8.Encode(KeyInfo.Format(key, iv, nl))
    modifies disk
    ensures textRestored && !encryptedAtEnd
    ensures disk.files == old(disk.files)[testFileName := Utf8.Encode(testContent)]
  {
    var keyFileName := KeyFilePath(testFileName);
    ghost var plain := Utf8.Encode(testContent);
    KeyInfo.FormatIsAscii(key, iv, nl);
    Utf8.DecodeEncodeAscii(KeyInfo.Format(key, iv, nl));
    KeyInfo.ParseFormat(key, iv, nl);
    var loaded := LoadKeyInfo(disk, keyFileName);
    assert loaded == Ok((key, iv));
    DecryptEncrypt(c, plain, key, iv);
    var d := DecryptFileInPlace(disk, c, testFileName, loaded.value.0, loaded.value.1);
    assert disk.files[testFileName] == plain;
    Utf8.DecodeEncodeAscii(testContent);
    var decryptedContent := disk.ReadAllText(testFileName);
    textRestored := testContent == decryptedContent;
    AsciiTextIsNotMarked(testContent);
    encryptedAtEnd := IsFileEncrypted(disk, testFileName);
  }

  /**
   * The wrong-key scenario: after EncryptFileInPlace with the correct key, DecryptFileInPlace
   * with another key throws exactly when the cipher rejects the ciphertext under that key, and
   * with the correct key it never throws; cleanup removes the file and nothing else.
   */
  method DecryptFileWithIncorrectKeyShouldThrow(disk: Disk, c: Cipher, correctKey: seq<byte>,
                                                correctIv: seq<byte>, incorrectKey: seq<byte>)
    returns (threw: bool)
    requires Sound(c) && |correctKey| == 32 && |correctIv| == 16 && |incorrectKey| == 32
    modifies disk
    ensures threw <==> c.decrypt(c.encrypt(Utf8.Encode(BadKeyContent), correctKey, correctIv),
                                 incorrectKey, correctIv).Err?
    ensures incorrectKey == correctKey ==> !threw
    ensures disk.files == old(disk.files) - {BadKeyFile, KeyFilePath(BadKeyFile)}
  {
    threw := WrongKeyScenario(disk, c, correctKey, correctIv, incorrectKey, BadKeyContent, BadKeyFile);
  }

  /** The wrong-key scenario for any text. */
  method WrongKeyScenario(disk: Disk, c: Cipher, correctKey: seq<byte>, correctIv: seq<byte>,
                          incorrectKey: seq<byte>, testContent: string, testFileName: string)
    returns (threw: bool)
    requires Sound(c) && |correctKey| == 32 && |correctIv| == 16 && |incorrectKey| == 32
    modifies disk
    ensures threw <==> c.decrypt(c.encrypt(Utf8.Encode(testContent), correctKey, correctIv),
                                 incorrectKey, correctIv).Err?
    ensures incorrectKey == correctKey ==> !threw
    ensures disk.files == old(disk.files) - {testFileName, KeyFilePath(testFileName)}
  {
    var keyFileName := KeyFilePath(testFileName);
    assert testFileName != keyFileName;

    CleanUp(disk, testFileName, keyFileName);
    ghost var cleaned := disk.files;

    ghost var plain := Utf8.Encode(testContent);
    disk.WriteAllText(testFileName, testContent);
    EncryptFileInPlace(disk, c, testFileName, correctKey, correctIv);
    ghost var encrypted := disk.files[testFileName];
    assert encrypted[|HeaderBytes|..] == c.encrypt(plain, correctKey, correctIv);
    assert disk.files == cleaned[testFileName := encrypted];

    var d := DecryptFileInPlace(disk, c, testFileName, incorrectKey, correctIv);
    threw := d.CipherFailed?;
    if incorrectKey == correctKey {
      DecryptEncrypt(c, plain, correctKey, correctIv);
    }
    ghost var last := disk.files[testFileName];
    if d.Plain? {
      OverwriteTwice(cleaned, testFileName, encrypted, d.content);
    }
    assert disk.files == cleaned[testFileName := last];

    CleanUp(disk, testFileName, keyFileName);
    RemoveWritten(cleaned, testFileName, keyFileName, last);
  }

  /** Writes to a file and its sidecar that cleanup then removes leave the store as cleanup alone would. */
  lemma RemoveWrittenPair(m: map<string, seq<byte>>, f: string, k: string, x: seq<byte>, y: seq<byte>, z: seq<byte>)
    ensures m[f := x][f := y][k := z][f := x] - {f, k} == m - {f, k}
  {
  }

  /** A second write to a file replaces the first. */
  lemma OverwriteTwice(m: map<string, seq<byte>>, f: string, x: seq<byte>, y: seq<byte>)
    ensures m[f := x][f := y] == m[f := y]
  {
  }

  /** Writing a file that cleanup then removes leaves the store as cleanup alone would. */
  lemma RemoveWritten(m: map<string, seq<byte>>, f: string, k: string, x: seq<byte>)
    ensures m[f := x] - {f, k} == m - {f, k}
  {
  }
}
