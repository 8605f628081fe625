/**
 * App.convert_domains: one raw line of a list file to a canonical domain, or
 * to nothing.
 *
 * The three compiled patterns and the IDNA codec live outside the modelled
 * file; they enter here as the fields of a `Patterns` value, so every
 * property below holds whatever those patterns are.
 */
module Normalizer {
  import opened Optional
  import opened Text

  /** Where a pattern matched: the characters start up to (not including) end. */
  datatype Span = Span(start: nat, end: nat)

  datatype Patterns = Patterns(
    /** The leftmost match of replace_pattern in a text, if any. */
    replaceMatch: string -> Option<Span>,
    /** Whether domain_pattern.match accepts a text. */
    domainMatch: string -> bool,
    /** Whether ip_pattern.match accepts a text. */
    ipMatch: string -> bool,
    /** text.encode("idna").decode("utf-8", "replace"); None where the codec raises. */
    idna: string -> Option<string>)

  /** The markers that make a whole line a comment. */
  predicate IsCommentStart(c: char)
  {
    c == '#' || c == '!' || c == '/'
  }

  /** The line lowercased and stripped, cut at the first '#' and then at the first '^', without carriage returns. */
  function Clean(line: string): (linex: string)
    ensures '#' !in linex && '^' !in linex && '\r' !in linex
  {
    var t := Strip(Lower(line));
    var beforeHash := Split(t, '#')[0];
    var beforeCaret := Split(beforeHash, '^')[0];
    SplitFirst(beforeHash, '^');
    SplitFirst(t, '#');
    assert forall x :: x in beforeCaret ==> x in beforeHash;
    RemoveChar(beforeCaret, '\r')
  }

  /** Where a line is cut: before its first '#' or '^', or at its end. */
  function CutPoint(t: string): (k: nat)
    ensures k <= |t|
    ensures k < |t| ==> t[k] == '#' || t[k] == '^'
    ensures forall j :: 0 <= j < k ==> t[j] != '#' && t[j] != '^'
  {
    if |t| == 0 || t[0] == '#' || t[0] == '^' then 0 else 1 + CutPoint(t[1..])
  }

  /** Any position with no marker before it and a marker or the end at it is the cut point. */
  lemma CutPointUnique(t: string, m: nat)
    requires m <= |t|
    requires forall j :: 0 <= j < m ==> t[j] != '#' && t[j] != '^'
    requires m == |t| || t[m] == '#' || t[m] == '^'
    ensures CutPoint(t) == m
  {
  }

  /** A text cut before its first '#' and that cut before its first '^' is the text up to its cut point. */
  lemma CutTwice(t: string, h1: string, h2: string)
    requires h1 <= t && '#' !in h1 && (|h1| == |t| || t[|h1|] == '#')
    requires h2 <= h1 && '^' !in h2 && (|h2| == |h1| || h1[|h2|] == '^')
    ensures h2 == t[..CutPoint(t)]
  {
    forall j | 0 <= j < |h2| ensures t[j] != '#' && t[j] != '^' {
      assert t[j] == h1[j] && h1[j] in h1;
      assert t[j] == h2[j] && h2[j] in h2;
    }
    CutPointUnique(t, |h2|);
  }

  /** Splitting at '#' and then at '^' keeps the text before whichever of the two comes first. */
  lemma SplitsCutAtFirstMarker(t: string)
    ensures Split(Split(t, '#')[0], '^')[0] == t[..CutPoint(t)]
  {
    SplitFirst(t, '#');
    SplitFirst(Split(t, '#')[0], '^');
    CutTwice(t, Split(t, '#')[0], Split(Split(t, '#')[0], '^')[0]);
  }

  /** Cutting at '#' and then at '^' cuts at whichever of the two comes first. */
  lemma CleanCutsAtFirstMarker(line: string)
    ensures var t := Strip(Lower(line));
      Clean(line) == RemoveChar(t[..CutPoint(t)], '\r')
  {
    SplitsCutAtFirstMarker(Strip(Lower(line)));
  }

  /** replace_pattern.sub("", text, count=1): the leftmost match, if any, removed once. */
  function SubOnce(p: Patterns, s: string): (r: string)
    ensures |r| <= |s|
    ensures forall x :: x in r ==> x in s
    ensures p.replaceMatch(s) == None ==> r == s
  {
    match p.replaceMatch(s)
    case None => s
    case Some(m) =>
      if m.start <= m.end <= |s| then
        assert forall x :: x in s[..m.start] + s[m.end..] ==> x in s[..m.start] || x in s[m.end..];
        s[..m.start] + s[m.end..]
      else s
  }

  /**
   * An in-range match is cut out exactly once: what precedes it is kept,
   * what follows it moves up to where it began, and the text gets shorter
   * by its length. A span out of range leaves the text alone.
   */
  lemma SubOnceRemovesMatch(p: Patterns, s: string, m: Span)
    requires p.replaceMatch(s) == Some(m)
    ensures m.start <= m.end <= |s| ==>
      && |SubOnce(p, s)| == |s| - (m.end - m.start)
      && SubOnce(p, s)[..m.start] == s[..m.start]
      && SubOnce(p, s)[m.start..] == s[m.end..]
    ensures !(m.start <= m.end <= |s|) ==> SubOnce(p, s) == s
  {
  }

  /** The text handed to the IDNA codec for a line. */
  function Candidate(p: Patterns, line: string): (d: string)
    ensures '#' !in d && '^' !in d && '\r' !in d
  {
    SubOnce(p, Clean(line))
  }

  /** App.convert_domains */
  function ConvertDomain(p: Patterns, line: string): (r: Option<string>)
    ensures line == "" || IsCommentStart(line[0]) ==> r == None
    ensures p.idna(Candidate(p, line)) == None ==> r == None
    ensures r.Some? ==> p.domainMatch(r.value) && !p.ipMatch(r.value)
    ensures r.Some? ==> p.idna(Candidate(p, line)) == r
    ensures line != "" && !IsCommentStart(line[0]) && p.idna(Candidate(p, line)).Some?
      && p.domainMatch(p.idna(Candidate(p, line)).value) && !p.ipMatch(p.idna(Candidate(p, line)).value)
      ==> r == p.idna(Candidate(p, line))
  {
    if line == "" || IsCommentStart(line[0]) then None
    else
      match p.idna(Candidate(p, line))
      case None => None
      case Some(d) => if p.domainMatch(d) && !p.ipMatch(d) then Some(d) else None
  }

  /** A domain already in canonical form, as far as the patterns and the codec are concerned. */
  ghost predicate Canonical(p: Patterns, d: string)
  {
    && d != ""
    && !IsCommentStart(d[0])
    && !IsSpace(d[0]) && !IsSpace(d[|d| - 1])
    && (forall i :: 0 <= i < |d| ==> !IsUpper(d[i]))
    && '#' !in d && '^' !in d && '\r' !in d
    && p.replaceMatch(d) == None
    && p.idna(d) == Some(d)
    && p.domainMatch(d) && !p.ipMatch(d)
  }

  /** Normalising a canonical domain gives it back unchanged. */
  lemma CanonicalIsFixpoint(p: Patterns, d: string)
    requires Canonical(p, d)
    ensures ConvertDomain(p, d) == Some(d)
  {
    assert Lower(d) == d;
    assert TrimStart(d) == d;
    assert TrimEnd(d) == d;
    assert Strip(Lower(d)) == d;
    assert Split(d, '#') == [d];
    assert Split(d, '^') == [d];
    assert Clean(d) == d;
  }
}
