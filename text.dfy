/**
 * The .NET string operations LoadKeyInfo relies on: Char.IsWhiteSpace, String.Trim,
 * String.IndexOf(char), String.Substring(int) and the line splitting of File.ReadAllLines.
 */
module Text {

  /** Char.IsWhiteSpace: the Unicode White_Space characters. */
  predicate IsWhiteSpace(c: char) {
    var v := c as int;
    (0x09 <= v <= 0x0D) || v == 0x20 || v == 0x85 || v == 0xA0 || v == 0x1680
    || (0x2000 <= v <= 0x200A) || v == 0x2028 || v == 0x2029 || v == 0x202F
    || v == 0x205F || v == 0x3000
  }

  /** Leading white space removed: the result is the suffix starting at the first other character. */
  function TrimStart(s: string): (r: string)
    ensures |r| <= |s| && r == s[|s| - |r|..]
    ensures forall i :: 0 <= i < |s| - |r| ==> IsWhiteSpace(s[i])
    ensures r == [] || !IsWhiteSpace(r[0])
    decreases |s|
  {
    if s != [] && IsWhiteSpace(s[0]) then TrimStart(s[1..]) else s
  }

  /** Trailing white space removed: the result is the prefix ending at the last other character. */
  function TrimEnd(s: string): (r: string)
    ensures |r| <= |s| && r == s[..|r|]
    ensures forall i :: |r| <= i < |s| ==> IsWhiteSpace(s[i])
    ensures r == [] || !IsWhiteSpace(r[|r| - 1])
    decreases |s|
  {
    if s != [] && IsWhiteSpace(s[|s| - 1]) then TrimEnd(s[..|s| - 1]) else s
  }

  /** String.Trim: neither end of the result is white space. */
  function Trim(s: string): (r: string)
    ensures |r| <= |s|
    ensures r == [] || (!IsWhiteSpace(r[0]) && !IsWhiteSpace(r[|r| - 1]))
  {
    TrimEnd(TrimStart(s))
  }

  /**
   * Trim keeps the slice of s from its first to its last character that is not white space:
   * everything before and after that slice is white space.
   */
  lemma TrimIsSlice(s: string)
    ensures var p := |s| - |TrimStart(s)|;
            && p + |Trim(s)| <= |s|
            && Trim(s) == s[p..p + |Trim(s)|]
            && (forall i :: 0 <= i < p ==> IsWhiteSpace(s[i]))
            && (forall i :: p + |Trim(s)| <= i < |s| ==> IsWhiteSpace(s[i]))
  {
    var t := TrimStart(s);
    var r := TrimEnd(t);
    SliceOfSuffix(s, t, r);
  }

  /** A prefix r of a suffix t of s, with white space after r in t, lies in s followed by white space. */
  lemma SliceOfSuffix(s: string, t: string, r: string)
    requires |t| <= |s| && t == s[|s| - |t|..]
    requires |r| <= |t| && r == t[..|r|]
    requires forall i :: |r| <= i < |t| ==> IsWhiteSpace(t[i])
    ensures r == s[|s| - |t|..|s| - |t| + |r|]
    ensures forall i :: |s| - |t| + |r| <= i < |s| ==> IsWhiteSpace(s[i])
  {
    var p := |s| - |t|;
    assert s[p..][..|r|] == s[p..p + |r|];
    forall i | p + |r| <= i < |s|
      ensures IsWhiteSpace(s[i])
    {
      assert s[i] == t[i - p];
    }
  }

  /** Text without white space is its own trim. */
  lemma TrimNoWhiteSpace(s: string)
    requires forall i :: 0 <= i < |s| ==> !IsWhiteSpace(s[i])
    ensures Trim(s) == s
  {
  }

  /** String.IndexOf(char): the first position holding c, or -1 when there is none. */
  function IndexOf(s: string, c: char): (k: int)
    ensures -1 <= k < |s|
    ensures k == -1 <==> c !in s
    ensures 0 <= k ==> s[k] == c && c !in s[..k]
    decreases |s|
  {
    if s == [] then -1
    else if s[0] == c then 0
    else
      var k := IndexOf(s[1..], c);
      if k == -1 then -1
      else
        assert s[..k + 1] == [s[0]] + s[1..][..k];
        k + 1
  }

  /** The position of a first occurrence is what IndexOf returns. */
  lemma {:induction false} IndexOfFirst(s: string, c: char, k: nat)
    requires k < |s| && s[k] == c && c !in s[..k]
    ensures IndexOf(s, c) == k
    decreases k
  {
    if k > 0 {
      assert s[..k] == [s[0]] + s[1..][..k - 1];
      IndexOfFirst(s[1..], c, k - 1);
    }
  }

  /** String.Substring(start): the characters from start to the end. */
  function Substring(s: string, start: nat): (r: string)
    requires start <= |s|
    ensures |r| == |s| - start
    ensures forall i :: 0 <= i < |r| ==> r[i] == s[start + i]
  {
    s[start..]
  }

  /** The characters that end a line for StreamReader.ReadLine. */
  predicate IsLineBreak(c: char) {
    c == '\n' || c == '\r'
  }

  predicate HasNoLineBreak(s: string) {
    forall i :: 0 <= i < |s| ==> !IsLineBreak(s[i])
  }

  /** Length of the first line: the position of the first line break, or |s| when there is none. */
  function LineEnd(s: string): (k: nat)
    ensures k <= |s|
    ensures k < |s| ==> IsLineBreak(s[k])
    ensures forall i :: 0 <= i < k ==> !IsLineBreak(s[i])
    decreases |s|
  {
    if s == [] || IsLineBreak(s[0]) then 0 else 1 + LineEnd(s[1..])
  }

  /**
   * File.ReadAllLines: the lines of s, each ended by "\r\n", "\n" or "\r" or by the end
   * of the text; a final line break does not start an empty extra line, and the empty
   * text has no lines at all.
   */
  function Lines(s: string): (lines: seq<string>)
    ensures forall j :: 0 <= j < |lines| ==> HasNoLineBreak(lines[j])
    ensures s == [] <==> lines == []
    decreases |s|
  {
    if s == [] then []
    else
      var k := LineEnd(s);
      if k == |s| then [s]
      else if s[k] == '\r' && k + 1 < |s| && s[k + 1] == '\n' then [s[..k]] + Lines(s[k + 2..])
      else [s[..k]] + Lines(s[k + 1..])
  }

  /** The lines ls, each followed by nl: the text a writer of one line per call produces. */
  function JoinLines(ls: seq<string>, nl: string): string
    decreases |ls|
  {
    if ls == [] then [] else ls[0] + nl + JoinLines(ls[1..], nl)
  }

  /** A break-free line, then a line break, then rest: the line comes first, then the lines of rest. */
  lemma LinesPrepend(a: string, nl: string, rest: string)
    requires HasNoLineBreak(a)
    requires nl == "\n" || nl == "\r\n" || (nl == "\r" && (rest == [] || rest[0] != '\n'))
    ensures Lines(a + nl + rest) == [a] + Lines(rest)
  {
    var s := a + nl + rest;
    assert s == a + (nl + rest);
    LineEndAfter(a, nl + rest);
    assert s[..|a|] == a;
    assert s[|a|] == nl[0];
    if nl == "\r\n" {
      assert s[|a| + 1] == '\n';
      assert s[|a| + 2..] == rest;
      LinesAfterBreak(s, |a|, 2, rest);
    } else {
      assert s[|a| + 1..] == rest;
      assert |a| + 1 < |s| ==> s[|a| + 1] == rest[0];
      LinesAfterBreak(s, |a|, 1, rest);
    }
  }

  /** Text whose first line ends at k with a break of w characters: that line, then the rest. */
  lemma LinesAfterBreak(s: string, k: nat, w: nat, rest: string)
    requires LineEnd(s) == k < |s|
    requires w == if s[k] == '\r' && k + 1 < |s| && s[k + 1] == '\n' then 2 else 1
    requires s[k + w..] == rest
    ensures Lines(s) == [s[..k]] + Lines(rest)
  {
    assert s != [];
    if w == 2 {
      assert Lines(s) == [s[..k]] + Lines(s[k + 2..]);
    } else {
      assert Lines(s) == [s[..k]] + Lines(s[k + 1..]);
    }
  }

  /**
   * ReadAllLines inverts JoinLines: break-free lines, each ended by the same line break, and
   * a last break-free line that may or may not be there, read back as exactly those lines.
   */
  lemma {:induction false} LinesOfJoin(ls: seq<string>, nl: string, last: string)
    requires forall j :: 0 <= j < |ls| ==> HasNoLineBreak(ls[j])
    requires HasNoLineBreak(last)
    requires nl == "\n" || nl == "\r\n" || nl == "\r"
    ensures Lines(JoinLines(ls, nl) + last) == ls + (if last == [] then [] else [last])
    decreases |ls|
  {
    var tail := if last == [] then [] else [last];
    if ls == [] {
      assert JoinLines(ls, nl) + last == last;
      LinesOfOneLine(last);
    } else {
      var rest := JoinLines(ls[1..], nl) + last;
      JoinUnfold(ls, nl, last);
      if nl == "\r" {
        JoinedStart(ls[1..], nl, last);
      }
      LinesPrepend(ls[0], nl, rest);
      LinesOfJoin(ls[1..], nl, last);
      assert Lines(rest) == ls[1..] + tail;
      assert [ls[0]] + (ls[1..] + tail) == ls + tail;
    }
  }

  lemma JoinUnfold(ls: seq<string>, nl: string, last: string)
    requires ls != []
    ensures JoinLines(ls, nl) + last == ls[0] + nl + (JoinLines(ls[1..], nl) + last)
  {
  }

  /** Joined break-free lines never start with '\n' when the separator is "\r". */
  lemma JoinedStart(ls: seq<string>, nl: string, last: string)
    requires forall j :: 0 <= j < |ls| ==> HasNoLineBreak(ls[j])
    requires HasNoLineBreak(last) && nl == "\r"
    ensures JoinLines(ls, nl) + last == [] || (JoinLines(ls, nl) + last)[0] != '\n'
  {
    if ls == [] {
      assert JoinLines(ls, nl) + last == last;
    } else {
      JoinUnfold(ls, nl, last);
      var r := JoinLines(ls, nl) + last;
      if ls[0] != [] {
        assert r[0] == ls[0][0];
      } else {
        assert r[0] == nl[0];
      }
    }
  }

  /** The first line is the text up to the first line break; text without one is one line. */
  lemma LinesFirst(s: string)
    requires s != []
    ensures Lines(s)[0] == s[..LineEnd(s)]
    ensures LineEnd(s) == |s| ==> Lines(s) == [s]
  {
  }

  /** The first line break in a + b, when a has none, is the first of b. */
  lemma LineEndAfter(a: string, b: string)
    requires HasNoLineBreak(a)
    ensures LineEnd(a + b) == |a| + LineEnd(b)
  {
    var s := a + b;
    var m := LineEnd(b);
    assert forall i :: 0 <= i < |a| ==> s[i] == a[i];
    assert forall i :: 0 <= i < m ==> s[|a| + i] == b[i];
    assert |a| + m < |s| ==> s[|a| + m] == b[m];
  }

  /** Text without line breaks: one line, or none if it is empty. */
  lemma LinesOfOneLine(a: string)
    requires HasNoLineBreak(a)
    ensures Lines(a) == if a == [] then [] else [a]
  {
    if a != [] {
      LineEndAfter(a, []);
      assert a + [] == a;
    }
  }

  /** A line followed by "\n" or "\r\n" reads back as that one line. */
  lemma LinesOfEndedLine(a: string, nl: string)
    requires HasNoLineBreak(a)
    requires nl == "\n" || nl == "\r\n"
    ensures Lines(a + nl) == [a]
  {
    assert a + nl == a + nl + [];
    LinesPrepend(a, nl, []);
  }

  /** Two lines joined by "\n" or "\r\n" read back as exactly those two lines. */
  lemma LinesOfTwo(a: string, nl: string, b: string)
    requires HasNoLineBreak(a) && HasNoLineBreak(b) && b != []
    requires nl == "\n" || nl == "\r\n"
    ensures Lines(a + nl + b) == [a, b]
  {
    LinesPrepend(a, nl, b);
    LinesOfOneLine(b);
  }
}
