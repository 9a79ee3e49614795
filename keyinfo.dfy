/**
 * The key-info sidecar of TheVault/Program.cs: SaveKeyInfo writes "Key=<base64>", the
 * platform's new line and "IV=<base64>"; LoadKeyInfo reads the value after the first '=' of
 * the first two lines.
 */
module KeyInfo {
  import opened Bytes
  import opened Wrappers
  import Base64
  import Text
  import Utf8

  /** Environment.NewLine: "\n" on Unix, "\r\n" on Windows. */
  datatype NewLine = Lf | CrLf {
    function Chars(): string {
      match this
      case Lf => "\n"
      case CrLf => "\r\n"
    }
  }

  /**
   * What goes wrong in LoadKeyInfo: fewer than two lines (IndexOutOfRangeException on
   * lines[1]) or a value that is not base64 (FormatException).
   */
  datatype KeyInfoError =
    | MissingLine(lineCount: nat)
    | BadBase64(lineIndex: nat, cause: Base64.Base64Error)

  /** The text SaveKeyInfo writes. */
  function Format(key: seq<byte>, iv: seq<byte>, nl: NewLine): (r: string)
    ensures |r| == 7 + |nl.Chars()| + 4 * ((|key| + 2) / 3) + 4 * ((|iv| + 2) / 3)
    ensures r[..4] == "Key="
  {
    "Key=" + Base64.Encode(key) + nl.Chars() + "IV=" + Base64.Encode(iv)
  }

  /**
   * line.Substring(line.IndexOf('=') + 1).Trim(): the text after the first '=', trimmed; a
   * line without '=' gives the whole line trimmed, because IndexOf returns -1.
   */
  function FieldValue(line: string): (v: string)
    ensures '=' !in line ==> v == Text.Trim(line)
  {
    var k := Text.IndexOf(line, '=');
    Text.Trim(Text.Substring(line, k + 1))
  }

  /** LoadKeyInfo on the text of the sidecar. */
  function Parse(text: string): (r: Result<(seq<byte>, seq<byte>), KeyInfoError>)
    ensures |Text.Lines(text)| < 2 ==> r == Err(MissingLine(|Text.Lines(text)|))
    ensures r.Ok? ==> |Text.Lines(text)| >= 2
                      && Base64.Decode(FieldValue(Text.Lines(text)[0])) == Ok(r.value.0)
                      && Base64.Decode(FieldValue(Text.Lines(text)[1])) == Ok(r.value.1)
    ensures |Text.Lines(text)| >= 2 ==>
              (r.Ok? <==> Base64.Decode(FieldValue(Text.Lines(text)[0])).Ok?
                          && Base64.Decode(FieldValue(Text.Lines(text)[1])).Ok?)
    ensures |Text.Lines(text)| >= 2 && Base64.Decode(FieldValue(Text.Lines(text)[0])).Err? ==>
              r == Err(BadBase64(0, Base64.Decode(FieldValue(Text.Lines(text)[0])).error))
    ensures |Text.Lines(text)| >= 2 && Base64.Decode(FieldValue(Text.Lines(text)[0])).Ok?
            && Base64.Decode(FieldValue(Text.Lines(text)[1])).Err? ==>
              r == Err(BadBase64(1, Base64.Decode(FieldValue(Text.Lines(text)[1])).error))
  {
    var lines := Text.Lines(text);
    if |lines| < 2 then Err(MissingLine(|lines|))
    else
      match Base64.Decode(FieldValue(lines[0]))
      case Err(e) => Err(BadBase64(0, e))
      case Ok(key) =>
        match Base64.Decode(FieldValue(lines[1]))
        case Err(e) => Err(BadBase64(1, e))
        case Ok(iv) => Ok((key, iv))
  }

  /** With an '=' in the line, the value is the trimmed text after the first one. */
  lemma FieldValueAfterFirstEquals(line: string, k: nat)
    requires k < |line| && line[k] == '=' && '=' !in line[..k]
    ensures FieldValue(line) == Text.Trim(line[k + 1..])
  {
    Text.IndexOfFirst(line, '=', k);
  }

  /** The value of a name, its '=', then base64 text is that text. */
  lemma FieldValueOfEncoding(prefix: string, b: seq<byte>)
    requires prefix != [] && prefix[|prefix| - 1] == '=' && '=' !in prefix[..|prefix| - 1]
    ensures FieldValue(prefix + Base64.Encode(b)) == Base64.Encode(b)
  {
    var e := Base64.Encode(b);
    var line := prefix + e;
    var k := |prefix| - 1;
    assert line[..k] == prefix[..k] && line[k] == '=';
    assert line[k + 1..] == e;
    FieldValueAfterFirstEquals(line, k);
    EncodingHasNoWhiteSpace(b);
    Text.TrimNoWhiteSpace(e);
  }

  /** Base64 text never contains white space. */
  lemma EncodingHasNoWhiteSpace(b: seq<byte>)
    ensures forall i :: 0 <= i < |Base64.Encode(b)| ==> !Text.IsWhiteSpace(Base64.Encode(b)[i])
  {
  }

  /** Base64 text never contains a line break. */
  lemma EncodingHasNoLineBreak(b: seq<byte>)
    ensures Text.HasNoLineBreak(Base64.Encode(b))
  {
  }

  /** Loading what SaveKeyInfo wrote gives the key and the IV back, byte for byte. */
  lemma ParseFormat(key: seq<byte>, iv: seq<byte>, nl: NewLine)
    ensures Parse(Format(key, iv, nl)) == Ok((key, iv))
  {
    LinesOfFormat(key, iv, nl);
    ParseOfFieldLines(Format(key, iv, nl), key, iv);
  }

  /** A text whose lines are "Key=" and "IV=" with the encodings of key and iv loads as key and iv. */
  lemma ParseOfFieldLines(text: string, key: seq<byte>, iv: seq<byte>)
    requires Text.Lines(text) == ["Key=" + Base64.Encode(key), "IV=" + Base64.Encode(iv)]
    ensures Parse(text) == Ok((key, iv))
  {
    assert "Key="[..3] == "Key" && "IV="[..2] == "IV";
    FieldDecodes("Key=", key);
    FieldDecodes("IV=", iv);
    ParseOfTwoLines(text, "Key=" + Base64.Encode(key), "IV=" + Base64.Encode(iv), key, iv);
  }

  /** The value of a line written as a name, '=' and the encoding of b decodes to b. */
  lemma FieldDecodes(prefix: string, b: seq<byte>)
    requires prefix != [] && prefix[|prefix| - 1] == '=' && '=' !in prefix[..|prefix| - 1]
    ensures Base64.Decode(FieldValue(prefix + Base64.Encode(b))) == Ok(b)
  {
    FieldValueOfEncoding(prefix, b);
    Base64.DecodeEncode(b);
  }

  /** Two lines whose values decode load as those two decodings. */
  lemma ParseOfTwoLines(text: string, first: string, second: string, key: seq<byte>, iv: seq<byte>)
    requires Text.Lines(text) == [first, second]
    requires Base64.Decode(FieldValue(first)) == Ok(key) && Base64.Decode(FieldValue(second)) == Ok(iv)
    ensures Parse(text) == Ok((key, iv))
  {
  }

  /** The sidecar text has exactly two lines, "Key=..." and "IV=...". */
  lemma LinesOfFormat(key: seq<byte>, iv: seq<byte>, nl: NewLine)
    ensures Text.Lines(Format(key, iv, nl)) == ["Key=" + Base64.Encode(key), "IV=" + Base64.Encode(iv)]
  {
    var first := "Key=" + Base64.Encode(key);
    var second := "IV=" + Base64.Encode(iv);
    assert Format(key, iv, nl) == first + nl.Chars() + second;
    FieldHasNoLineBreak("Key=", key);
    FieldHasNoLineBreak("IV=", iv);
    Text.LinesOfTwo(first, nl.Chars(), second);
  }

  /** A name without line breaks followed by base64 text has no line break. */
  lemma FieldHasNoLineBreak(name: string, b: seq<byte>)
    requires Text.HasNoLineBreak(name)
    ensures Text.HasNoLineBreak(name + Base64.Encode(b))
  {
    var e := Base64.Encode(b);
    EncodingHasNoLineBreak(b);
    assert forall i :: |name| <= i < |name + e| ==> (name + e)[i] == e[i - |name|];
  }

  /** The sidecar text is ASCII, so UTF-8 writes it one byte per character. */
  lemma FormatIsAscii(key: seq<byte>, iv: seq<byte>, nl: NewLine)
    ensures Utf8.IsAscii(Format(key, iv, nl))
  {
    var e1, e2 := Base64.Encode(key), Base64.Encode(iv);
    assert Utf8.IsAscii(e1) && Utf8.IsAscii(e2);
    assert Utf8.IsAscii("Key=") && Utf8.IsAscii("IV=") && Utf8.IsAscii(nl.Chars());
    Utf8.AsciiConcat("Key=", e1);
    Utf8.AsciiConcat("Key=" + e1, nl.Chars());
    Utf8.AsciiConcat("Key=" + e1 + nl.Chars(), "IV=");
    Utf8.AsciiConcat("Key=" + e1 + nl.Chars() + "IV=", e2);
  }

  /** A sidecar of one line, with or without a final line break, cannot be loaded. */
  lemma OneLineFails(line: string, ending: string)
    requires Text.HasNoLineBreak(line) && line != []
    requires ending == "" || ending == "\n" || ending == "\r\n"
    ensures Parse(line + ending) == Err(MissingLine(1))
  {
    if ending == "" {
      assert line + ending == line;
      Text.LinesOfOneLine(line);
    } else {
      Text.LinesOfEndedLine(line, ending);
    }
  }
}
