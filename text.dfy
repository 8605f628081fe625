/**
 * The Python string operations the normaliser and the consolidator rely on:
 * str.lower (ASCII letters only), str.strip, str.split(sep), str.join,
 * str.replace(c, "") and str.splitlines, over Dafny strings (sequences of
 * Unicode scalar values).
 */
module Text {

  /** Python's str.isspace: the characters str.strip() removes by default. */
  predicate IsSpace(c: char)
  {
    || ('\t' <= c <= '\r')
    || ('\U{1C}' <= c <= '\U{1F}')
    || c == ' '
    || c == '\U{85}'
    || c == '\U{A0}'
    || c == '\U{1680}'
    || ('\U{2000}' <= c <= '\U{200A}')
    || c == '\U{2028}'
    || c == '\U{2029}'
    || c == '\U{202F}'
    || c == '\U{205F}'
    || c == '\U{3000}'
  }

  /** The line boundaries recognised by Python's str.splitlines. */
  predicate IsLineBreak(c: char)
  {
    || c == '\n'
    || c == '\r'
    || c == '\U{0B}'
    || c == '\U{0C}'
    || ('\U{1C}' <= c <= '\U{1E}')
    || c == '\U{85}'
    || c == '\U{2028}'
    || c == '\U{2029}'
  }

  predicate IsUpper(c: char)
  {
    'A' <= c <= 'Z'
  }

  function LowerChar(c: char): char
  {
    if IsUpper(c) then (c as int + 32) as char else c
  }

  /** str.lower, restricted to the ASCII letters. */
  function Lower(s: string): (r: string)
    ensures |r| == |s|
    ensures forall i :: 0 <= i < |r| ==> !IsUpper(r[i])
    ensures forall i :: 0 <= i < |s| && !IsUpper(s[i]) ==> r[i] == s[i]
    ensures forall i :: 0 <= i < |s| && IsUpper(s[i]) ==> r[i] as int == s[i] as int + 32
  {
    seq(|s|, i requires 0 <= i < |s| => LowerChar(s[i]))
  }

  /** Drops the leading whitespace: what is left is a suffix of s, and it is empty or starts with a non-space. */
  function TrimStart(s: string): (r: string)
    ensures |r| <= |s| && r == s[|s| - |r|..]
    ensures r == [] || !IsSpace(r[0])
    ensures forall k :: 0 <= k < |s| - |r| ==> IsSpace(s[k])
  {
    if |s| > 0 && IsSpace(s[0]) then TrimStart(s[1..]) else s
  }

  /** Drops the trailing whitespace: what is left is a prefix of s, and it is empty or ends with a non-space. */
  function TrimEnd(s: string): (r: string)
    ensures |r| <= |s| && r == s[..|r|]
    ensures r == [] || !IsSpace(r[|r| - 1])
    ensures forall k :: |r| <= k < |s| ==> IsSpace(s[k])
  {
    if |s| > 0 && IsSpace(s[|s| - 1]) then TrimEnd(s[..|s| - 1]) else s
  }

  /** str.strip() */
  function Strip(s: string): string
  {
    TrimEnd(TrimStart(s))
  }

  /**
   * Stripping keeps one contiguous stretch of s that neither starts nor
   * ends with whitespace; everything before and after it is whitespace.
   */
  lemma StripKeepsMiddle(s: string)
    ensures var r := Strip(s);
      var i := |s| - |TrimStart(s)|;
      && i + |r| <= |s| && r == s[i..i + |r|]
      && (r == [] || (!IsSpace(r[0]) && !IsSpace(r[|r| - 1])))
      && (forall k :: 0 <= k < i ==> IsSpace(s[k]))
      && (forall k :: i + |r| <= k < |s| ==> IsSpace(s[k]))
  {
    TrimmedBothEnds(s, TrimStart(s), Strip(s));
  }

  /** A suffix of s left after leading whitespace, then a prefix of that left before trailing whitespace. */
  lemma TrimmedBothEnds(s: string, t: string, r: string)
    requires |t| <= |s| && t == s[|s| - |t|..] && (t == [] || !IsSpace(t[0]))
    requires forall k :: 0 <= k < |s| - |t| ==> IsSpace(s[k])
    requires |r| <= |t| && r == t[..|r|] && (r == [] || !IsSpace(r[|r| - 1]))
    requires forall k :: |r| <= k < |t| ==> IsSpace(t[k])
    ensures var i := |s| - |t|;
      && i + |r| <= |s| && r == s[i..i + |r|]
      && (r == [] || (!IsSpace(r[0]) && !IsSpace(r[|r| - 1])))
      && (forall k :: i + |r| <= k < |s| ==> IsSpace(s[k]))
  {
    var i := |s| - |t|;
    forall k | i + |r| <= k < |s| ensures IsSpace(s[k]) {
      assert s[k] == t[k - i];
    }
    if r != [] {
      assert r[0] == t[0];
    }
  }

  /** The position of the first c in s. */
  function IndexOf(s: string, c: char): (k: nat)
    requires c in s
    ensures k < |s| && s[k] == c && c !in s[..k]
  {
    if s[0] == c then 0
    else
      var k := IndexOf(s[1..], c);
      assert s[..k + 1] == [s[0]] + s[1..][..k];
      k + 1
  }

  /** str.split(c): the pieces between the occurrences of c, at least one. */
  function Split(s: string, c: char): (parts: seq<string>)
    ensures |parts| >= 1
    ensures forall k :: 0 <= k < |parts| ==> c !in parts[k]
    decreases |s|
  {
    if c !in s then [s]
    else
      var k := IndexOf(s, c);
      [s[..k]] + Split(s[k + 1..], c)
  }

  /** str.join: c.join(parts) */
  function Join(parts: seq<string>, c: char): string
  {
    if |parts| == 0 then ""
    else if |parts| == 1 then parts[0]
    else parts[0] + [c] + Join(parts[1..], c)
  }

  /** Joining the pieces of a split gives back the text. */
  lemma {:induction false} JoinSplit(s: string, c: char)
    ensures Join(Split(s, c), c) == s
    decreases |s|
  {
    if c in s {
      var k := IndexOf(s, c);
      var rest := s[k + 1..];
      JoinSplit(rest, c);
      assert Split(s, c) == [s[..k]] + Split(rest, c);
      assert Split(s, c)[1..] == Split(rest, c);
      assert s == s[..k] + [c] + rest;
    }
  }

  lemma IndexOfJoined(a: string, c: char, b: string)
    requires c !in a
    ensures c in a + [c] + b && IndexOf(a + [c] + b, c) == |a|
  {
    var s := a + [c] + b;
    assert s[|a|] == c;
    assert s[..|a|] == a;
  }

  /** Splitting pieces that do not contain c, joined by c, gives back the pieces. */
  lemma {:induction false} SplitJoin(parts: seq<string>, c: char)
    requires |parts| >= 1
    requires forall k :: 0 <= k < |parts| ==> c !in parts[k]
    ensures Split(Join(parts, c), c) == parts
  {
    if |parts| > 1 {
      var rest := Join(parts[1..], c);
      var s := parts[0] + [c] + rest;
      assert Join(parts, c) == s;
      IndexOfJoined(parts[0], c, rest);
      var k := IndexOf(s, c);
      assert s[..k] == parts[0];
      assert s[k + 1..] == rest;
      assert Split(s, c) == [parts[0]] + Split(rest, c);
      SplitJoin(parts[1..], c);
      assert parts == [parts[0]] + parts[1..];
    }
  }

  /** The first piece of a split is the text before the first c (the whole text when there is none). */
  lemma SplitFirst(s: string, c: char)
    ensures var h := Split(s, c)[0];
      h <= s && c !in h && (|h| == |s| || s[|h|] == c)
  {
  }

  /** Joining at a cut point: the pieces before i, c, and the pieces from i on. */
  lemma {:induction false} JoinAt(parts: seq<string>, c: char, i: nat)
    requires 1 <= i < |parts|
    ensures Join(parts, c) == Join(parts[..i], c) + [c] + Join(parts[i..], c)
  {
    if i > 1 {
      JoinAt(parts[1..], c, i - 1);
      assert parts[1..][..i - 1] == parts[1..i];
      assert parts[1..][i - 1..] == parts[i..];
      assert parts[..i][1..] == parts[1..i];
    } else {
      assert parts[..1] == [parts[0]];
    }
  }

  /** str.replace(c, ""): every c removed, every other character kept in order. */
  function RemoveChar(s: string, c: char): (r: string)
    ensures c !in r
    ensures forall x :: x in r ==> x in s
    ensures c !in s ==> r == s
  {
    if |s| == 0 then ""
    else
      var rest := RemoveChar(s[1..], c);
      assert s == [s[0]] + s[1..];
      if s[0] == c then rest else [s[0]] + rest
  }

  /**
   * Removing c distributes over concatenation. With the ensures of RemoveChar
   * this fixes the result on every text: each character other than c stays,
   * in order, and each c goes.
   */
  lemma {:induction false} RemoveCharConcat(a: string, b: string, c: char)
    ensures RemoveChar(a + b, c) == RemoveChar(a, c) + RemoveChar(b, c)
    decreases |a|
  {
    if |a| > 0 {
      assert (a + b)[0] == a[0];
      assert (a + b)[1..] == a[1..] + b;
      RemoveCharConcat(a[1..], b, c);
    } else {
      assert a + b == b;
    }
  }

  /** The position of the first line break in s, or |s| when there is none. */
  function LineEnd(s: string): (k: nat)
    ensures k <= |s|
    ensures k < |s| ==> IsLineBreak(s[k])
    ensures forall j :: 0 <= j < k ==> !IsLineBreak(s[j])
  {
    if |s| == 0 || IsLineBreak(s[0]) then 0 else 1 + LineEnd(s[1..])
  }

  /** str.splitlines(): "\r\n" is one boundary; a final line break does not start an empty line. */
  function SplitLines(s: string): (lines: seq<string>)
    ensures forall k, j :: 0 <= k < |lines| && 0 <= j < |lines[k]| ==> !IsLineBreak(lines[k][j])
    decreases |s|
  {
    if |s| == 0 then []
    else
      var k := LineEnd(s);
      var next :=
        if k == |s| then |s|
        else if s[k] == '\r' && k + 1 < |s| && s[k + 1] == '\n' then k + 2
        else k + 1;
      [s[..k]] + SplitLines(s[next..])
  }

  predicate NoLineBreak(line: string)
  {
    forall j :: 0 <= j < |line| ==> !IsLineBreak(line[j])
  }

  /** Every line followed by "\n": the text a file of these lines holds. */
  function Terminated(lines: seq<string>): string
  {
    if |lines| == 0 then "" else lines[0] + "\n" + Terminated(lines[1..])
  }

  /** The first line break of a break-free line followed by any break is where the line ends. */
  lemma {:induction false} LineEndAtBreak(line: string, b: char, rest: string)
    requires NoLineBreak(line) && IsLineBreak(b)
    ensures LineEnd(line + [b] + rest) == |line|
    decreases |line|
  {
    var s := line + [b] + rest;
    if |line| > 0 {
      assert s[1..] == line[1..] + [b] + rest;
      LineEndAtBreak(line[1..], b, rest);
    } else {
      assert s[0] == b;
    }
  }

  /** A break-free line followed by "\r\n" splits off as one line: the pair is one boundary. */
  lemma SplitLinesConsCRLF(line: string, rest: string)
    requires NoLineBreak(line)
    ensures SplitLines(line + "\r\n" + rest) == [line] + SplitLines(rest)
  {
    var s := line + "\r\n" + rest;
    assert s == line + ['\r'] + ("\n" + rest);
    LineEndAtBreak(line, '\r', "\n" + rest);
    assert s[|line|] == '\r' && s[|line| + 1] == '\n';
    assert s[..|line|] == line;
    assert s[|line| + 2..] == rest;
  }

  /**
   * A break-free line followed by any single line break splits off as one
   * line, unless the break is '\r' and a '\n' follows it.
   */
  lemma SplitLinesConsBreak(line: string, b: char, rest: string)
    requires NoLineBreak(line) && IsLineBreak(b)
    requires b == '\r' ==> rest == [] || rest[0] != '\n'
    ensures SplitLines(line + [b] + rest) == [line] + SplitLines(rest)
  {
    var s := line + [b] + rest;
    LineEndAtBreak(line, b, rest);
    assert s[|line|] == b;
    assert s[..|line|] == line;
    assert s[|line| + 1..] == rest;
  }

  /** A non-empty break-free text with no final break is one line. */
  lemma SplitLinesLast(line: string)
    requires NoLineBreak(line) && line != ""
    ensures SplitLines(line) == [line]
  {
    assert LineEnd(line) == |line|;
    assert line[..|line|] == line;
    assert SplitLines(line) == [line[..|line|]] + SplitLines(line[|line|..]);
    assert line[|line|..] == [];
  }

  /** Every line followed by "\r\n": the text of a file saved with CRLF line ends. */
  function TerminatedCRLF(lines: seq<string>): string
  {
    if |lines| == 0 then "" else lines[0] + "\r\n" + TerminatedCRLF(lines[1..])
  }

  /** Splitting the text of a CRLF file of break-free lines gives back exactly those lines. */
  lemma {:induction false} SplitLinesTerminatedCRLF(lines: seq<string>)
    requires forall k :: 0 <= k < |lines| ==> NoLineBreak(lines[k])
    ensures SplitLines(TerminatedCRLF(lines)) == lines
  {
    if |lines| > 0 {
      SplitLinesConsCRLF(lines[0], TerminatedCRLF(lines[1..]));
      assert forall k :: 0 <= k < |lines[1..]| ==> lines[1..][k] == lines[k + 1];
      SplitLinesTerminatedCRLF(lines[1..]);
      assert lines == [lines[0]] + lines[1..];
    }
  }

  /** Splitting the text of a file of break-free lines gives back exactly those lines. */
  lemma {:induction false} SplitLinesTerminated(lines: seq<string>)
    requires forall k :: 0 <= k < |lines| ==> NoLineBreak(lines[k])
    ensures SplitLines(Terminated(lines)) == lines
  {
    if |lines| > 0 {
      assert Terminated(lines) == lines[0] + ['\n'] + Terminated(lines[1..]);
      SplitLinesConsBreak(lines[0], '\n', Terminated(lines[1..]));
      assert forall k :: 0 <= k < |lines[1..]| ==> lines[1..][k] == lines[k + 1];
      SplitLinesTerminated(lines[1..]);
      assert lines == [lines[0]] + lines[1..];
    }
  }
}
