/**
 * Base64 as Convert.ToBase64String and Convert.FromBase64String implement it: the standard
 * alphabet and '=' padding of section 4 of RFC 4648.
 */
module Base64 {
  import opened Bytes
  import opened Wrappers

  datatype Base64Error = BadLength | BadCharacter

  /** A value of six bits, the unit one base64 character carries. */
  type Sextet = i: int | 0 <= i < 64

  predicate IsAlphabetChar(c: char) {
    ('A' <= c <= 'Z') || ('a' <= c <= 'z') || ('0' <= c <= '9') || c == '+' || c == '/'
  }

  /** The character of the alphabet that stands for value i (Table 1 of RFC 4648). */
  function CharOf(i: Sextet): (c: char)
    ensures IsAlphabetChar(c)
  {
    if i < 26 then (65 + i) as char
    else if i < 52 then (97 + i - 26) as char
    else if i < 62 then (48 + i - 52) as char
    else if i == 62 then '+'
    else '/'
  }

  /** The value an alphabet character stands for; the inverse of CharOf. */
  function ValueOf(c: char): (i: Sextet)
    requires IsAlphabetChar(c)
    ensures CharOf(i) == c
  {
    if 'A' <= c <= 'Z' then (c as int) - 65
    else if 'a' <= c <= 'z' then (c as int) - 97 + 26
    else if '0' <= c <= '9' then (c as int) - 48 + 52
    else if c == '+' then 62
    else 63
  }

  lemma ValueOfCharOf(i: Sextet)
    ensures ValueOf(CharOf(i)) == i
  {
  }

  /** Four characters for three bytes. */
  function EncodeGroup(b0: byte, b1: byte, b2: byte): string {
    [CharOf(b0 / 4), CharOf((b0 % 4) * 16 + b1 / 16), CharOf((b1 % 16) * 4 + b2 / 64), CharOf(b2 % 64)]
  }

  /** Convert.ToBase64String. */
  function Encode(b: seq<byte>): (s: string)
    ensures |s| == 4 * ((|b| + 2) / 3)
    ensures forall i :: 0 <= i < |s| ==> IsAlphabetChar(s[i]) || s[i] == '='
    ensures forall i :: 0 <= i < |s| - 2 ==> IsAlphabetChar(s[i])
    ensures b != [] ==> s[0] != '='
    decreases |b|
  {
    if |b| == 0 then []
    else if |b| == 1 then [CharOf(b[0] / 4), CharOf((b[0] % 4) * 16), '=', '=']
    else if |b| == 2 then [CharOf(b[0] / 4), CharOf((b[0] % 4) * 16 + b[1] / 16), CharOf((b[1] % 16) * 4), '=']
    else
      var g, rest := EncodeGroup(b[0], b[1], b[2]), Encode(b[3..]);
      GroupIsAlphabet(b[0], b[1], b[2]);
      FullGroupFirst(g, rest);
      GroupCount(|b|);
      g + rest
  }

  /** Four alphabet characters in front of base64 text keep padding in the last two places only. */
  lemma FullGroupFirst(g: string, rest: string)
    requires |g| == 4 && AllAlphabet(g)
    requires forall i :: 0 <= i < |rest| ==> IsAlphabetChar(rest[i]) || rest[i] == '='
    requires forall i :: 0 <= i < |rest| - 2 ==> IsAlphabetChar(rest[i])
    ensures forall i :: 0 <= i < |g + rest| ==> IsAlphabetChar((g + rest)[i]) || (g + rest)[i] == '='
    ensures forall i :: 0 <= i < |g + rest| - 2 ==> IsAlphabetChar((g + rest)[i])
  {
    assert forall i :: 4 <= i < |g + rest| ==> (g + rest)[i] == rest[i - 4];
  }

  lemma GroupCount(n: nat)
    requires n >= 3
    ensures 4 + 4 * ((n - 3 + 2) / 3) == 4 * ((n + 2) / 3)
  {
  }

  /** The characters Convert.FromBase64String skips wherever they occur. */
  predicate IsSkipped(c: char) {
    c == ' ' || c == '\t' || c == '\r' || c == '\n'
  }

  function RemoveSkipped(s: string): (r: string)
    ensures forall i :: 0 <= i < |r| ==> !IsSkipped(r[i])
    ensures (forall i :: 0 <= i < |s| ==> !IsSkipped(s[i])) ==> r == s
    decreases |s|
  {
    if s == [] then []
    else if IsSkipped(s[0]) then RemoveSkipped(s[1..])
    else [s[0]] + RemoveSkipped(s[1..])
  }

  /** Removal works character by character: the skipped ones go, the others stay in order. */
  lemma {:induction false} RemoveSkippedConcat(a: string, b: string)
    ensures RemoveSkipped(a + b) == RemoveSkipped(a) + RemoveSkipped(b)
    decreases |a|
  {
    if a == [] {
      assert a + b == b;
    } else {
      assert (a + b)[0] == a[0];
      assert (a + b)[1..] == a[1..] + b;
      RemoveSkippedConcat(a[1..], b);
    }
  }

  /** One character: removed when skipped, kept otherwise. */
  lemma RemoveSkippedChar(c: char)
    ensures RemoveSkipped([c]) == if IsSkipped(c) then [] else [c]
  {
    assert [c][1..] == [];
  }

  predicate AllAlphabet(g: string) {
    forall i :: 0 <= i < |g| ==> IsAlphabetChar(g[i])
  }

  /** The three bytes of four alphabet characters. */
  function DecodeGroup(g: string): (b: seq<byte>)
    requires |g| == 4 && AllAlphabet(g)
    ensures |b| == 3
  {
    var v0, v1, v2, v3 := ValueOf(g[0]), ValueOf(g[1]), ValueOf(g[2]), ValueOf(g[3]);
    [v0 * 4 + v1 / 16, (v1 % 16) * 16 + v2 / 4, (v2 % 4) * 64 + v3]
  }

  /**
   * The last group: four characters, or three and "=" (two bytes), or two and "=="
   * (one byte). Bits below the last full byte are ignored.
   */
  function DecodeLastGroup(g: string): (r: Result<seq<byte>, Base64Error>)
    requires |g| == 4
    ensures r.Ok? ==> 1 <= |r.value| <= 3
  {
    if AllAlphabet(g) then Ok(DecodeGroup(g))
    else if AllAlphabet(g[..3]) && g[3] == '=' then
      var v0, v1, v2 := ValueOf(g[0]), ValueOf(g[1]), ValueOf(g[2]);
      Ok([v0 * 4 + v1 / 16, (v1 % 16) * 16 + v2 / 4])
    else if AllAlphabet(g[..2]) && g[2] == '=' && g[3] == '=' then
      var v0, v1 := ValueOf(g[0]), ValueOf(g[1]);
      Ok([v0 * 4 + v1 / 16])
    else Err(BadCharacter)
  }

  /** Decoding once the skipped characters are gone: groups of four, padding only at the end. */
  function DecodeGroups(s: string): (r: Result<seq<byte>, Base64Error>)
    ensures |s| % 4 != 0 ==> r == Err(BadLength)
    ensures r.Ok? ==> 4 * |r.value| <= 3 * |s| <= 4 * |r.value| + 8
    decreases |s|
  {
    if |s| == 0 then Ok([])
    else if |s| % 4 != 0 then Err(BadLength)
    else if |s| == 4 then DecodeLastGroup(s)
    else if !AllAlphabet(s[..4]) then Err(BadCharacter)
    else
      match DecodeGroups(s[4..])
      case Ok(rest) => Ok(DecodeGroup(s[..4]) + rest)
      case Err(e) => Err(e)
  }

  /** Convert.FromBase64String, with FormatException as an error value. */
  function Decode(s: string): (r: Result<seq<byte>, Base64Error>)
    ensures |RemoveSkipped(s)| % 4 != 0 ==> r == Err(BadLength)
    ensures r.Ok? ==> 4 * |r.value| <= 3 * |RemoveSkipped(s)| <= 4 * |r.value| + 8
  {
    DecodeGroups(RemoveSkipped(s))
  }

  /** A skipped character anywhere in the text does not change what it decodes to. */
  lemma DecodeIgnoresSkipped(a: string, c: char, b: string)
    requires IsSkipped(c)
    ensures Decode(a + [c] + b) == Decode(a + b)
  {
    RemoveSkippedConcat(a + [c], b);
    RemoveSkippedConcat(a, [c]);
    RemoveSkippedConcat(a, b);
    RemoveSkippedChar(c);
    assert RemoveSkipped(a + [c]) == RemoveSkipped(a);
    assert RemoveSkipped(a + [c] + b) == RemoveSkipped(a + b);
  }

  /** No base64 text contains a character the decoder skips. */
  lemma EncodeHasNoSkipped(b: seq<byte>)
    ensures forall i :: 0 <= i < |Encode(b)| ==> !IsSkipped(Encode(b)[i])
  {
  }

  lemma DecodeGroupEncodeGroup(b0: byte, b1: byte, b2: byte)
    ensures DecodeGroup(EncodeGroup(b0, b1, b2)) == [b0, b1, b2]
  {
    var v0, v1, v2, v3 := b0 / 4, (b0 % 4) * 16 + b1 / 16, (b1 % 16) * 4 + b2 / 64, b2 % 64;
    ValueOfCharOf(v0);
    ValueOfCharOf(v1);
    ValueOfCharOf(v2);
    ValueOfCharOf(v3);
    FirstByteOfGroup(b0, b1);
    SecondByteOfGroup(b0, b1, b2);
    ThirdByteOfGroup(b1, b2);
  }

  /** The top six bits of b0 and the next two from the second sextet give b0 back. */
  lemma FirstByteOfGroup(b0: byte, b1: byte)
    ensures (b0 / 4) * 4 + ((b0 % 4) * 16 + b1 / 16) / 16 == b0
  {
    assert ((b0 % 4) * 16 + b1 / 16) / 16 == b0 % 4;
  }

  /** The low four bits of the second sextet and the top four of the third give b1 back. */
  lemma SecondByteOfGroup(b0: byte, b1: byte, b2: byte)
    ensures (((b0 % 4) * 16 + b1 / 16) % 16) * 16 + ((b1 % 16) * 4 + b2 / 64) / 4 == b1
  {
    assert ((b0 % 4) * 16 + b1 / 16) % 16 == b1 / 16;
    assert ((b1 % 16) * 4 + b2 / 64) / 4 == b1 % 16;
  }

  /** The low two bits of the third sextet and the fourth sextet give b2 back. */
  lemma ThirdByteOfGroup(b1: byte, b2: byte)
    ensures (((b1 % 16) * 4 + b2 / 64) % 4) * 64 + b2 % 64 == b2
  {
    assert ((b1 % 16) * 4 + b2 / 64) % 4 == b2 / 64;
  }

  /** Decoding an encoding gives the bytes back. */
  lemma {:induction false} DecodeEncode(b: seq<byte>)
    ensures Decode(Encode(b)) == Ok(b)
  {
    EncodeHasNoSkipped(b);
    DecodeGroupsEncode(b);
  }

  lemma DecodeOneByte(b0: byte)
    ensures DecodeGroups(Encode([b0])) == Ok([b0])
  {
    var s := Encode([b0]);
    ValueOfCharOf(b0 / 4);
    ValueOfCharOf((b0 % 4) * 16);
    assert s[2] == '=' && !IsAlphabetChar(s[2]);
    assert AllAlphabet(s[..2]);
  }

  lemma DecodeTwoBytes(b0: byte, b1: byte)
    ensures DecodeGroups(Encode([b0, b1])) == Ok([b0, b1])
  {
    var s := Encode([b0, b1]);
    ValueOfCharOf(b0 / 4);
    ValueOfCharOf((b0 % 4) * 16 + b1 / 16);
    ValueOfCharOf((b1 % 16) * 4);
    assert s[3] == '=' && !IsAlphabetChar(s[3]);
    assert AllAlphabet(s[..3]);
    var v1 := (b0 % 4) * 16 + b1 / 16;
    assert v1 / 16 == b0 % 4 && v1 % 16 == b1 / 16;
  }

  lemma DecodeThreeBytes(b0: byte, b1: byte, b2: byte)
    ensures DecodeGroups(EncodeGroup(b0, b1, b2)) == Ok([b0, b1, b2])
  {
    var g := EncodeGroup(b0, b1, b2);
    assert AllAlphabet(g);
    DecodeGroupEncodeGroup(b0, b1, b2);
  }

  lemma DecodeGroupsPrepend(g: string, s: string, rest: seq<byte>)
    requires |g| == 4 && AllAlphabet(g) && |s| > 0 && |s| % 4 == 0
    requires DecodeGroups(s) == Ok(rest)
    ensures DecodeGroups(g + s) == Ok(DecodeGroup(g) + rest)
  {
    var t := g + s;
    assert t[..4] == g && t[4..] == s;
    assert |t| == |s| + 4;
    AddGroup(|s|);
    DecodeGroupsStep(t, rest);
  }

  lemma AddGroup(n: nat)
    requires n % 4 == 0
    ensures (n + 4) % 4 == 0
  {
  }

  /** Text of more than one group decodes as its first group, then the rest. */
  lemma DecodeGroupsStep(t: string, rest: seq<byte>)
    requires |t| > 4 && |t| % 4 == 0 && AllAlphabet(t[..4]) && DecodeGroups(t[4..]) == Ok(rest)
    ensures DecodeGroups(t) == Ok(DecodeGroup(t[..4]) + rest)
  {
  }

  lemma {:induction false} DecodeGroupsEncode(b: seq<byte>)
    ensures DecodeGroups(Encode(b)) == Ok(b)
    decreases |b|
  {
    if |b| == 1 {
      assert b == [b[0]];
      DecodeOneByte(b[0]);
    } else if |b| == 2 {
      assert b == [b[0], b[1]];
      DecodeTwoBytes(b[0], b[1]);
    } else if |b| == 3 {
      DecodeGroupsEncodeThree(b);
    } else if |b| > 3 {
      DecodeGroupsEncode(b[3..]);
      DecodeGroupsEncodeStep(b);
    }
  }

  lemma DecodeGroupsEncodeThree(b: seq<byte>)
    requires |b| == 3
    ensures DecodeGroups(Encode(b)) == Ok(b)
  {
    assert Encode(b[3..]) == [];
    assert Encode(b) == EncodeGroup(b[0], b[1], b[2]);
    DecodeThreeBytes(b[0], b[1], b[2]);
    assert b == [b[0], b[1], b[2]];
  }

  /** One step of the induction: a full group in front of an encoding that decodes. */
  lemma DecodeGroupsEncodeStep(b: seq<byte>)
    requires |b| > 3 && DecodeGroups(Encode(b[3..])) == Ok(b[3..])
    ensures DecodeGroups(Encode(b)) == Ok(b)
  {
    EncodeFront(b);
    EncodeRestIsGroups(b);
    DecodeGroupsAfterGroup(b, Encode(b), Encode(b[3..]));
  }

  lemma EncodeFront(b: seq<byte>)
    requires |b| > 3
    ensures Encode(b) == EncodeGroup(b[0], b[1], b[2]) + Encode(b[3..])
  {
  }

  lemma EncodeRestIsGroups(b: seq<byte>)
    requires |b| > 3
    ensures |Encode(b[3..])| > 0 && |Encode(b[3..])| % 4 == 0
  {
    var k := (|b[3..]| + 2) / 3;
    assert |Encode(b[3..])| == 4 * k && k > 0;
    FourTimes(k);
  }

  lemma FourTimes(k: nat)
    ensures (4 * k) % 4 == 0
  {
  }

  /** A group encoding three bytes, in front of text that decodes to the rest of b. */
  lemma DecodeGroupsAfterGroup(b: seq<byte>, e: string, s: string)
    requires |b| > 3 && e == EncodeGroup(b[0], b[1], b[2]) + s
    requires DecodeGroups(s) == Ok(b[3..]) && |s| > 0 && |s| % 4 == 0
    ensures DecodeGroups(e) == Ok(b)
  {
    SplitThree(b);
    DecodeGroupsEncodeGroup(b[0], b[1], b[2], s, b[3..]);
  }

  lemma DecodeGroupsEncodeGroup(b0: byte, b1: byte, b2: byte, s: string, rest: seq<byte>)
    requires DecodeGroups(s) == Ok(rest) && |s| > 0 && |s| % 4 == 0
    ensures DecodeGroups(EncodeGroup(b0, b1, b2) + s) == Ok([b0, b1, b2] + rest)
  {
    GroupIsAlphabet(b0, b1, b2);
    DecodeGroupEncodeGroup(b0, b1, b2);
    DecodeGroupsPrepend(EncodeGroup(b0, b1, b2), s, rest);
  }

  lemma SplitThree(b: seq<byte>)
    requires |b| >= 3
    ensures b == [b[0], b[1], b[2]] + b[3..]
  {
  }

  lemma GroupIsAlphabet(b0: byte, b1: byte, b2: byte)
    ensures AllAlphabet(EncodeGroup(b0, b1, b2))
  {
  }

  /** Two byte strings have the same encoding exactly when they are equal. */
  lemma EncodeInjective(a: seq<byte>, b: seq<byte>)
    ensures Encode(a) == Encode(b) <==> a == b
  {
    DecodeEncode(a);
    DecodeEncode(b);
  }
}
