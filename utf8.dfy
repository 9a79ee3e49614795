/**
 * The text encoding behind File.WriteAllText, File.ReadAllText and File.ReadAllLines
 * (UTF-8 without byte-order mark).
 */
module Utf8 {
  import opened Bytes

  predicate IsAsciiChar(c: char) {
    (c as int) < 128
  }

  predicate IsAscii(s: string) {
    forall i :: 0 <= i < |s| ==> IsAsciiChar(s[i])
  }

  lemma AsciiConcat(a: string, b: string)
    requires IsAscii(a) && IsAscii(b)
    ensures IsAscii(a + b)
  {
    assert forall i :: |a| <= i < |a| + |b| ==> (a + b)[i] == b[i - |a|];
  }

  /** UTF-8 encoding of one Unicode scalar value (one to four bytes). */
  function EncodeChar(c: char): (b: seq<byte>)
    ensures 1 <= |b| <= 4
    ensures IsAsciiChar(c) <==> |b| == 1
    ensures IsAsciiChar(c) ==> b == [c as int]
  {
    var v := c as int;
    if v < 0x80 then [v]
    else if v < 0x800 then [0xC0 + v / 0x40, 0x80 + v % 0x40]
    else if v < 0x1_0000 then [0xE0 + v / 0x1000, 0x80 + (v / 0x40) % 0x40, 0x80 + v % 0x40]
    else [0xF0 + v / 0x4_0000, 0x80 + (v / 0x1000) % 0x40, 0x80 + (v / 0x40) % 0x40, 0x80 + v % 0x40]
  }

  /** Encoding.UTF8.GetBytes. On ASCII text it is one byte per character, each the code point. */
  function Encode(s: string): (b: seq<byte>)
    ensures IsAscii(s) ==> |b| == |s| && forall i :: 0 <= i < |s| ==> b[i] == s[i] as int
    decreases |s|
  {
    if s == [] then [] else EncodeChar(s[0]) + Encode(s[1..])
  }

  /** The encoding of ASCII text is the sequence of its code points. */
  lemma EncodeAsciiCodes(s: string, b: seq<byte>)
    requires IsAscii(s) && |b| == |s|
    requires forall i :: 0 <= i < |s| ==> b[i] == s[i] as int
    ensures Encode(s) == b
  {
  }

  /** One byte read back as text: ASCII bytes are their character, any other byte is U+FFFD. */
  function DecodeByte(b: byte): (c: char)
    ensures IsAsciiChar(c) <==> b < 128
  {
    if b < 128 then b as char else '\U{FFFD}'
  }

  /** Encoding.UTF8.GetString, exact on ASCII bytes. */
  function Decode(b: seq<byte>): (s: string)
    ensures |s| == |b|
    ensures forall i :: 0 <= i < |b| ==> (IsAsciiChar(s[i]) <==> b[i] < 128)
    ensures forall i :: 0 <= i < |b| && b[i] < 128 ==> s[i] as int == b[i]
  {
    seq(|b|, i requires 0 <= i < |b| => DecodeByte(b[i]))
  }

  /** Reading back what was written gives the text again, for ASCII text. */
  lemma DecodeEncodeAscii(s: string)
    requires IsAscii(s)
    ensures Decode(Encode(s)) == s
  {
    var b := Encode(s);
    forall i | 0 <= i < |s|
      ensures Decode(b)[i] == s[i]
    {
      assert b[i] == s[i] as int;
    }
  }

  /**
   * Comparing the decoded text with an ASCII string is the same as comparing the bytes
   * with that string's encoding: no non-ASCII byte decodes to an ASCII character.
   */
  lemma DecodeEqualsAsciiIff(b: seq<byte>, t: string)
    requires IsAscii(t)
    ensures Decode(b) == t <==> b == Encode(t)
  {
    var e := Encode(t);
    if Decode(b) == t {
      forall i | 0 <= i < |b|
        ensures b[i] == e[i]
      {
        assert Decode(b)[i] == DecodeByte(b[i]) == t[i];
        assert IsAsciiChar(t[i]);
      }
    }
    if b == e {
      DecodeEncodeAscii(t);
    }
  }
}
