# TheVault in Dafny

TheVault is a console program that encrypts a file in place. It writes the 12-byte marker
`"[ENCRYPTED]\n"` in front of the AES ciphertext. The key and IV go, in base64, into a sidecar
file `<path>.keyinfo`. Decryption asks the user to type the key back. It compares the typed
text with the stored key, decrypts, and deletes the sidecar.

This project models the core of `TheVault/Program.cs` and the two unit-test scenarios of
`ProgramTest/UnitTest1.cs`. The files are:

- `filestate.dfy`: the header, the marked-file predicate, and the byte layout that encryption and decryption produce.
- `keyinfo.dfy`: the sidecar text, both how it is written and how it is parsed.
- `base64.dfy`: `Convert.ToBase64String` / `Convert.FromBase64String`, written out per section 4 of RFC 4648.
- `utf8.dfy`: the UTF-8 encoding behind `File.WriteAllText`, `File.ReadAllText` and `File.ReadAllLines`.
- `text.dfy`: the .NET string helpers used, i.e. `IndexOf`, `Substring`, `Trim` and the line splitting of `ReadAllLines`.
- `cipher.dfy`: the cipher as a parameter. `Sound` lists what the AES library promises. A padding-only cipher shows that `Sound` can be met.
- `filesystem.dfy`: the file store. It is a class `Disk` whose `files` map is updated in place. Every write and delete is also logged in a ghost `log`.
- `program.dfy`:
  - the methods of `Program.cs`, written imperatively: arrays, `Buffer.BlockCopy`, and a buffered read of the first 12 bytes;
  - `HandleEncryption` and `HandleDecryption`, each specified by a pure function (`EncryptionRun`, `DecryptionRun`) giving the reported outcome and the ordered list of writes and deletes;
  - theorems about those runs.
- `programtests.dfy`: the two `[Fact]` scenarios as methods over a `Disk`. The test class's own copies of the helpers are identical to those of `Program.cs`, so they are modelled once.

The model follows what the code does, including these points where it departs from what a reader of the program might expect:

- **File too short.** A marked file of exactly 12 bytes is not an error. `DecryptFileInPlace` prints a message and returns normally (`TheVault/Program.cs:282-286`). `HandleDecryption` then reports success and deletes the sidecar.
- **Line without `=`.** A sidecar line with no `=` is not rejected. `IndexOf` returns -1 and `Substring(0)` keeps the whole line.
- **Unreadable sidecar.** A missing line or bad base64 in the sidecar is not caught. `LoadKeyInfo` runs outside the `try` block (`TheVault/Program.cs:107`), so the exception ends the program. This is the outcome `KeyInfoException`.
- **Header not checked.** `DecryptFileInPlace` does not check the header itself. It drops the first 12 bytes whatever they are.

## Model

| member | source | states |
|---|---|---|
| FileState.IsMarked | TheVault/Program.cs:256-259 | true iff the data has at least 12 bytes and each of the first 12 is the header's byte at that place |
| FileState.HeaderEncoding | TheVault/Program.cs:10 | the header text is ASCII and its UTF-8 bytes are exactly the 12 bytes `[ENCRYPTED]\n` |
| FileState.MarkedByFirstBytes | TheVault/Program.cs:248-261 | whether a file counts as encrypted depends only on its first 12 bytes (those read into the buffer) |
| FileState.EncryptContent | TheVault/Program.cs:263-275 | the content written by encryption is marked; with a sound cipher and valid key it is longer than 12 bytes and than the plaintext |
| FileState.Attach | TheVault/Program.cs:268-272 | header followed by payload: marked, of length 12 + payload, with the payload after byte 12 |
| FileState.DecryptEncrypt | TheVault/Program.cs:277-293 | decrypting what EncryptFileInPlace wrote, with the same key and IV, gives the original content |
| FileState.DecryptIgnoresFirstBytes | TheVault/Program.cs:288-291 | the first 12 bytes are dropped unread: files equal after byte 12 decrypt alike |
| FileState.DecryptContent | TheVault/Program.cs:282-291 | too short iff at most 12 bytes; a plaintext iff longer and the cipher accepts the bytes after the 12th, and then it is the cipher's plaintext; otherwise the cipher failed |
| FileState.DecryptFailsOnlyByCipher | TheVault/Program.cs:282-291 | decryption fails exactly when the file is longer than 12 bytes and the cipher rejects the rest |
| Program.KeyFilePath | TheVault/Program.cs:75 | the sidecar path is the file path with 8 characters appended, so it is never the file itself |
| Program.BlockCopy | TheVault/Program.cs:271-272 | the destination holds the source range at the offset and is unchanged elsewhere |
| Program.IsFileEncrypted | TheVault/Program.cs:248-261 | reports true iff the file has at least 12 bytes and they are the header |
| Program.EncryptFileInPlace | TheVault/Program.cs:263-275 | the file becomes header + ciphertext of its old content; no other file changes; one write is logged |
| Program.DecryptFileInPlace | TheVault/Program.cs:277-293 | a file of at most 12 bytes is untouched; otherwise the bytes after 12 are decrypted and written back, and nothing is written when decryption fails |
| Program.SaveKeyInfo | TheVault/Program.cs:295-301 | the sidecar holds the UTF-8 bytes of `Key=<b64 key>` new line `IV=<b64 iv>`; nothing else changes |
| Program.LoadKeyInfo | TheVault/Program.cs:303-311 | the result is the sidecar text parsed by KeyInfo.Parse, with each exception as an error value |
| Program.EncryptionRun | TheVault/Program.cs:55-84 | a marked file gives no operations; otherwise the store ends with the file encrypted and the sidecar written |
| Program.DecryptionRun | TheVault/Program.cs:86-149 | only a reported success performs operations, and its last one deletes the sidecar (when success happens: Program.DecryptionAccepted and Program.AcceptedDecrypts) |
| Program.DecryptionWithKey | TheVault/Program.cs:114-139 | success iff the entered text is the base64 of the key and decryption does not throw; on success the store ends with the file decrypted (or unchanged if too short) and the sidecar removed |
| Program.DecryptAndDeleteKeyFile | TheVault/Program.cs:117-139 | the try block decrypts and then deletes the sidecar; its outcome and the store's operations are those of DecryptionWithKey |
| Program.HandleEncryption | TheVault/Program.cs:55-84 | the disk goes through exactly the operations of EncryptionRun and the outcome is EncryptionRun's |
| Program.HandleDecryption | TheVault/Program.cs:86-149 | the disk goes through exactly the operations of DecryptionRun and the outcome is DecryptionRun's |
| Program.EncryptionOfMarkedFileChangesNothing | TheVault/Program.cs:60-65 | an already encrypted file aborts encryption with the store unchanged |
| Program.EncryptionFootprint | TheVault/Program.cs:67-80 | encrypting a plain file touches only the file and its sidecar and shows the base64 of the key |
| Program.EncryptedFileDecrypts | TheVault/Program.cs:73 | after encryption the file is marked, holds the ciphertext after byte 12, and decrypts to the old content |
| Program.EncryptedSidecarLoads | TheVault/Program.cs:75-76 | after encryption the sidecar loads back exactly the key and IV used |
| Program.EncryptionCrashWindow | TheVault/Program.cs:73-76 | the file is written before the sidecar: stopped between the two, the file is encrypted and decryption reports the key file missing |
| Program.DecryptionChangesNothingUnlessAccepted | TheVault/Program.cs:91-145 | an unmarked file, a missing or unreadable sidecar, a wrong entered key or a failing decryption leave the store unchanged |
| Program.DecryptionAccepted | TheVault/Program.cs:91-126 | only if: a reported success implies a marked file, a loadable sidecar, the entered text equal to the base64 of the stored key and no decryption failure |
| Program.AcceptedDecrypts | TheVault/Program.cs:91-128 | if: a marked file with a loadable sidecar, the base64 of the stored key entered and a decryption that does not throw is reported decrypted, and the sidecar is gone afterwards |
| Program.BareHeaderDecrypts | TheVault/Program.cs:117-126 | a file that is the header alone, with a loadable sidecar and the right key entered, makes DecryptFileInPlace return early; success is still reported and the store loses only the sidecar |
| Program.DecryptionEffect | TheVault/Program.cs:121-126 | a reported success removes the sidecar, leaves other files alone, and leaves the file decrypted or, when it is exactly the header, unchanged |
| Program.DecryptionWithKeyEffect | TheVault/Program.cs:117-128 | once the key and IV are known, a success removes the sidecar, keeps the other files, and leaves the file decrypted, or unchanged when it is too short |
| Program.EncryptThenDecryptRestores | TheVault/Program.cs:55-149 | encrypting, then entering the key shown, succeeds and gives back the original store minus the sidecar |
| Program.WrongEntryAfterEncryptionChangesNothing | TheVault/Program.cs:116-145 | after encryption, entering anything but the key shown reports a mismatch with no operation |
| KeyInfo.Format | TheVault/Program.cs:299 | the text starts with `Key=` and is 7 characters, the new line and the two base64 texts long |
| KeyInfo.FieldValue | TheVault/Program.cs:306-307 | a line without `=` yields the whole line trimmed |
| KeyInfo.FieldValueAfterFirstEquals | TheVault/Program.cs:306-307 | with `=` in the line, the value is the trimmed text after its first `=` |
| KeyInfo.FieldValueOfEncoding | TheVault/Program.cs:299-307 | the value of a line made of a prefix whose only `=` is its last character, then base64 text, is that text |
| KeyInfo.FieldDecodes | TheVault/Program.cs:299-310 | the value of such a line decodes back to the bytes that were encoded |
| KeyInfo.Parse | TheVault/Program.cs:303-311 | fewer than two lines is a missing-line error; with two or more, loading succeeds iff the values of lines 0 and 1 both decode, and then gives those decodings; otherwise the error names the first line, 0 or 1, that fails and the decoder's cause |
| KeyInfo.ParseOfTwoLines | TheVault/Program.cs:303-311 | a text of two lines whose values decode loads as those decodings |
| KeyInfo.ParseOfFieldLines | TheVault/Program.cs:303-311 | a text whose lines are `Key=` and `IV=` followed by base64 of a key and an IV loads as that key and IV |
| KeyInfo.ParseFormat | TheVault/Program.cs:295-311 | loading what SaveKeyInfo wrote gives the key and IV back byte for byte, for either new-line convention |
| KeyInfo.LinesOfFormat | TheVault/Program.cs:299-305 | the sidecar text splits into exactly the lines `Key=<b64>` and `IV=<b64>` |
| KeyInfo.FormatIsAscii | TheVault/Program.cs:299-300 | the sidecar text is ASCII, so its UTF-8 bytes read back to the same text |
| KeyInfo.OneLineFails | TheVault/Program.cs:305-307 | a sidecar with a single line fails with a missing line |
| KeyInfo.EncodingHasNoWhiteSpace | TheVault/Program.cs:297-307 | base64 text contains no white space, so trimming leaves it intact |
| KeyInfo.EncodingHasNoLineBreak | TheVault/Program.cs:297-305 | base64 text contains no line break, so it stays on one line |
| Base64.Encode | TheVault/Program.cs:297-298 | output of length 4*ceil(n/3), only alphabet characters and `=`, padding only in the last two places |
| Base64.DecodeEncode | TheVault/Program.cs:297-310 | decoding the base64 of any bytes gives those bytes back |
| Base64.DecodeGroupsEncode | TheVault/Program.cs:297-310 | the group decoder inverts the encoder, group by group |
| Base64.EncodeInjective | TheVault/Program.cs:114-116 | two byte strings have equal base64 iff they are equal, so comparing texts is comparing keys |
| Base64.ValueOf | TheVault/Program.cs:309-310 | the sextet of an alphabet character is the one that encodes to it |
| Base64.RemoveSkipped | TheVault/Program.cs:309-310 | no character the decoder skips remains, and text without any is unchanged |
| Base64.RemoveSkippedConcat | TheVault/Program.cs:309-310 | removal works piece by piece: the result on a concatenation is the concatenation of the results |
| Base64.RemoveSkippedChar | TheVault/Program.cs:309-310 | a single character is removed iff the decoder skips it |
| Base64.Decode | TheVault/Program.cs:309-310 | a text whose length without skipped white space is not a multiple of 4 is a format error; a decoding has 3 bytes per 4 characters, less at most 2 for padding |
| Base64.DecodeIgnoresSkipped | TheVault/Program.cs:309-310 | a skipped character anywhere in the text does not change the decoding |
| Utf8.Decode | TheVault/Program.cs:259 | one character per byte; a character is ASCII iff its byte is below 128, and then its code is that byte |
| Utf8.Encode | TheVault/Program.cs:250 | ASCII text encodes to one byte per character, its code |
| Utf8.DecodeEncodeAscii | TheVault/Program.cs:259 | ASCII text read back from its bytes is the same text |
| Utf8.DecodeEqualsAsciiIff | TheVault/Program.cs:259 | decoded bytes equal an ASCII text iff the bytes are its encoding |
| Text.IndexOf | TheVault/Program.cs:306 | -1 iff the character is absent; otherwise the position of its first occurrence |
| Text.Substring | TheVault/Program.cs:306 | the characters from start on, in order |
| Text.TrimStart | TheVault/Program.cs:306 | drops exactly the leading white space |
| Text.TrimEnd | TheVault/Program.cs:306 | drops exactly the trailing white space |
| Text.Trim | TheVault/Program.cs:306-307 | the result is no longer than the input and neither of its ends is white space |
| Text.TrimIsSlice | TheVault/Program.cs:306-307 | the result is a contiguous slice of the input with only white space before and after it |
| Text.TrimNoWhiteSpace | TheVault/Program.cs:306-307 | text without white space is its own trim |
| Text.Lines | TheVault/Program.cs:305 | no line holds a line break; the text is empty iff it has no lines |
| Text.LinesFirst | TheVault/Program.cs:305 | the first line is the text up to its first line break; text without a line break is one line |
| Text.LinesPrepend | TheVault/Program.cs:305 | a break-free line, then `\n`, `\r\n` or a `\r` not followed by `\n`, then a rest, reads as that line followed by the lines of the rest |
| Text.LinesOfJoin | TheVault/Program.cs:305 | break-free lines, each ended by the same line break, and an optional last line without one, read back as exactly those lines |
| Text.IndexOfFirst | TheVault/Program.cs:306 | the position of a first occurrence is what IndexOf returns |
| Text.LinesOfTwo | TheVault/Program.cs:299-305 | two break-free texts joined by one new line split back into exactly those two lines |
| Cipher.PaddingOnlyCipherIsSound | TheVault/Program.cs:266 | the cipher assumptions are satisfiable, so theorems that assume them are not vacuous |
| Cipher.SoundAcceptsSomeWrongKeys | ProgramTest/UnitTest1.cs:88-91 | the library's promises do not imply that a wrong key is rejected |
| FileSystem.ApplyConcat | TheVault/Program.cs:73-76 | applying two operation lists in turn is applying their concatenation |
| FileSystem.Disk.ReadAllBytes | TheVault/Program.cs:265 | a new array holding exactly the stored bytes of the file |
| FileSystem.Disk.WriteAllBytes | TheVault/Program.cs:274 | the path now holds the data, every other path is unchanged, and one write is logged |
| FileSystem.Disk.WriteAllText | TheVault/Program.cs:300 | the path now holds the UTF-8 bytes of the text, every other path is unchanged, and one write is logged |
| FileSystem.Disk.ReadAllText | ProgramTest/UnitTest1.cs:40-47 | the text is the UTF-8 decoding of the stored bytes |
| FileSystem.Disk.Read | TheVault/Program.cs:255 | the first min(count, length) bytes are copied and their number returned; the rest of the buffer is untouched |
| FileSystem.Disk.ReadAllLines | TheVault/Program.cs:305 | the lines of the decoded file text |
| FileSystem.Disk.Delete | TheVault/Program.cs:126 | the path is removed from the store and nothing else changes |
| ProgramTests.CleanUp | ProgramTest/UnitTest1.cs:27-28 | the test file and its sidecar are gone and nothing else changes |
| ProgramTests.AsciiTextIsNotMarked | ProgramTest/UnitTest1.cs:49 | ASCII text not starting with `[` is not marked after WriteAllText |
| ProgramTests.EncryptPhase | ProgramTest/UnitTest1.cs:35-40 | after encrypting and saving, the file is reported encrypted and its text differs from the original |
| ProgramTests.DecryptPhase | ProgramTest/UnitTest1.cs:43-49 | loading and decrypting restores the original text, and the file is then not reported encrypted |
| ProgramTests.RestoreScenario | ProgramTest/UnitTest1.cs:11-57 | all four assertions of the restore test hold for any ASCII text not starting with `[`; cleanup leaves the rest of the store as it was |
| ProgramTests.EncryptAndDecryptFileShouldRestoreOriginalContent | ProgramTest/UnitTest1.cs:11-57 | the restore test's four assertions hold for its own text and file name |
| ProgramTests.WrongKeyScenario | ProgramTest/UnitTest1.cs:60-99 | decryption with the other key throws exactly when the cipher rejects it; the correct key never throws; cleanup leaves the rest of the store as it was |
| ProgramTests.DecryptFileWithIncorrectKeyShouldThrow | ProgramTest/UnitTest1.cs:60-99 | the wrong-key test for its own text and file name |

## Left out

- The console, which is not modelled:
  - the menu loop of `Main`;
  - `GetFilePathFromUser`, `GetAddPathFromUser` and `AddFileToPath`;
  - the folder scan of `HandleListEncryptedFiles`;
  - every `Console.WriteLine` and `ReadKey`.

  `HandleEncryption` and `HandleDecryption` take the path GetFilePathFromUser would return as a parameter. That path is required to exist. The typed key is a parameter too. A null `ReadLine` never equals a base64 text, so it is a wrong entry.
- The AES implementation is not modelled (`TheVault.Shared/Encryption/Encryption.cs` is not part of this model). The cipher is a parameter, and `Sound` states only what the library promises: the round trip, the ciphertext length, and rejection of invalid key sizes.
- Key and IV generation (`RandomNumberGenerator.Fill`) is randomness. The key and IV are parameters of 32 and 16 bytes.
- The choice of `Environment.NewLine` is the parameter `nl`: `"\n"` or `"\r\n"`.
- Utf8.Decode: it is exact on ASCII. It maps every byte of 0x80 or above to U+FFFD, so multi-byte sequences are not decoded. ReadAllText's byte-order-mark detection is not modelled. As a consequence, LoadKeyInfo on a sidecar line ending in a non-ASCII white space such as U+00A0 (bytes C2 A0) fails in the model with the outcome `KeyInfoException` and a base64 error, because each of the two bytes decodes to U+FFFD, whereas .NET decodes the character, `Trim` drops it and the key loads. Sidecars written by SaveKeyInfo are ASCII, so this never arises for them.
- Base64.Decode: it skips the white space `FromBase64String` skips and ignores the trailing bits of the last character. The decoder's behaviour on non-canonical input is stated as modelled, not checked against the .NET runtime.
- Program.EncryptFileInPlace: it requires an AES key size (16, 24 or 32 bytes) and a 16-byte IV, so the `CryptographicException` that `Encrypt` throws for other sizes is not modelled; every caller, in `Program.cs` and in both tests, passes a 32-byte key and a 16-byte IV.
- Program.BlockCopy: it does not model overlapping source and destination. The program never copies within one array.
- I/O failures (missing folder, access denied, disk full) are not modelled. The store is a map, and `File.Delete` of an absent path is not an error.
- Exceptions other than the cipher's `CryptographicException` and `LoadKeyInfo`'s, such as a non-cryptographic exception from decryption (`TheVault/Program.cs:135-139`), are not modelled. The modelled decryption fails only through the cipher.
- ProgramTests.DecryptFileWithIncorrectKeyShouldThrow: it states that the test passes exactly when the cipher rejects the other key. It does not claim the rejection happens. AES-CBC with PKCS7 padding accepts a wrong key whenever the decrypted padding happens to be valid, and Cipher.SoundAcceptsSomeWrongKeys shows that this is consistent with the library's promises.
- ProgramTests.WrongKeyScenario: the same weaker statement, for any text.
- Directory listing and `Path.GetFileName` are not modelled. Neither affects the file state.
