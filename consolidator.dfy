/**
 * App.convert_to_domain_list: normalise every line of the allow-list text and
 * of the block-list text into two sets, reduce the block set, take away the
 * allow set, and sort what remains.
 */
module Consolidator {
  import opened Optional
  import opened Text
  import opened Order
  import opened Normalizer
  import opened Reducer

  /** f applied to each element. */
  function MapSeq<A, B>(f: A -> B, xs: seq<A>): (ys: seq<B>)
    ensures |ys| == |xs|
    ensures forall k :: 0 <= k < |xs| ==> ys[k] == f(xs[k])
  {
    seq(|xs|, k requires 0 <= k < |xs| => f(xs[k]))
  }

  lemma MapSeqSnoc<A, B>(f: A -> B, xs: seq<A>, i: nat)
    requires i < |xs|
    ensures MapSeq(f, xs[..i + 1]) == MapSeq(f, xs[..i]) + [f(xs[i])]
  {
    assert forall k :: 0 <= k < i ==> xs[..i + 1][k] == xs[..i][k];
  }

  function ConvertWith(p: Patterns): string -> Option<string>
  {
    line => ConvertDomain(p, line)
  }

  /** convert_domains applied to each line. */
  function Converted(p: Patterns, lines: seq<string>): (rs: seq<Option<string>>)
    ensures |rs| == |lines|
  {
    MapSeq(ConvertWith(p), lines)
  }

  /** The set a loop builds from the results: `if domain:` is false for None and for "". */
  function Gather(rs: seq<Option<string>>): set<string>
  {
    if |rs| == 0 then {}
    else
      var last := rs[|rs| - 1];
      Gather(rs[..|rs| - 1]) + (if last.Some? && last.value != "" then {last.value} else {})
  }

  /** The set the loop over these lines builds. */
  function DomainsOf(p: Patterns, lines: seq<string>): set<string>
  {
    Gather(Converted(p, lines))
  }

  lemma GatherSnoc(rs: seq<Option<string>>, r: Option<string>)
    ensures Gather(rs + [r]) == Gather(rs) + (if r.Some? && r.value != "" then {r.value} else {})
  {
    assert (rs + [r])[..|rs|] == rs;
  }

  lemma DomainsOfSnoc(p: Patterns, lines: seq<string>, i: nat)
    requires i < |lines|
    ensures var r := ConvertDomain(p, lines[i]);
      DomainsOf(p, lines[..i + 1]) == DomainsOf(p, lines[..i]) + (if r.Some? && r.value != "" then {r.value} else {})
  {
    MapSeqSnoc(ConvertWith(p), lines, i);
    GatherSnoc(Converted(p, lines[..i]), ConvertDomain(p, lines[i]));
  }

  lemma {:induction false} GatherMembers(rs: seq<Option<string>>, d: string)
    ensures d in Gather(rs) <==> d != "" && Some(d) in rs
  {
    if |rs| > 0 {
      var init := rs[..|rs| - 1];
      GatherMembers(init, d);
      assert rs == init + [rs[|rs| - 1]];
    }
  }

  /** A domain is in the set exactly when it is the non-empty result of normalising one of the lines. */
  lemma DomainsOfMembers(p: Patterns, lines: seq<string>, d: string)
    ensures d in DomainsOf(p, lines) <==>
      d != "" && exists k :: 0 <= k < |lines| && ConvertDomain(p, lines[k]) == Some(d)
  {
    var rs := Converted(p, lines);
    GatherMembers(rs, d);
    if Some(d) in rs {
      var k :| 0 <= k < |rs| && rs[k] == Some(d);
      assert ConvertDomain(p, lines[k]) == Some(d);
    }
    if exists k :: 0 <= k < |lines| && ConvertDomain(p, lines[k]) == Some(d) {
      var k :| 0 <= k < |lines| && ConvertDomain(p, lines[k]) == Some(d);
      assert rs[k] == Some(d);
    }
  }

  /** Every domain in the set passes the domain check and fails the IP check. */
  lemma DomainsOfValid(p: Patterns, lines: seq<string>, d: string)
    requires d in DomainsOf(p, lines)
    ensures d != "" && p.domainMatch(d) && !p.ipMatch(d)
  {
    DomainsOfMembers(p, lines, d);
  }

  /** The final list for the two texts: ascending, and holding exactly the kept block domains not allowed. */
  ghost predicate IsFinalList(p: Patterns, blockContent: string, whiteContent: string, final: seq<string>)
  {
    && StrictlyAscending(final)
    && Elems(final) == Reduced(DomainsOf(p, SplitLines(blockContent))) - DomainsOf(p, SplitLines(whiteContent))
  }

  /**
   * One of the two loops of App.convert_to_domain_list: every line is
   * normalised and each non-empty domain goes into the set.
   */
  method CollectDomains(p: Patterns, lines: seq<string>) returns (domains: set<string>)
    ensures domains == DomainsOf(p, lines)
  {
    domains := {};
    for i := 0 to |lines|
      invariant domains == DomainsOf(p, lines[..i])
    {
      var domain := ConvertDomain(p, lines[i]);
      if domain.Some? && domain.value != "" {
        domains := domains + {domain.value};
      }
      DomainsOfSnoc(p, lines, i);
    }
    assert lines[..|lines|] == lines;
  }

  /** App.convert_to_domain_list */
  method ConvertToDomainList(p: Patterns, blockContent: string, whiteContent: string) returns (final: seq<string>)
    ensures IsFinalList(p, blockContent, whiteContent, final)
  {
    var whiteDomains := CollectDomains(p, SplitLines(whiteContent));
    var blockDomains := CollectDomains(p, SplitLines(blockContent));
    var filteredDomains := RemoveSubdomains(blockDomains);
    final := SortSet(filteredDomains - whiteDomains);
  }

  /**
   * What a final list holds: each entry once, in order, normalised from a
   * block line, never allowed, and with no multi-label ancestor among the
   * block domains; and every block domain that is not allowed and not
   * under another block domain is in it.
   */
  lemma FinalListContents(p: Patterns, blockContent: string, whiteContent: string, final: seq<string>)
    requires IsFinalList(p, blockContent, whiteContent, final)
    ensures forall i, j :: 0 <= i < j < |final| ==> final[i] != final[j]
    ensures forall d :: d in final ==> d in DomainsOf(p, SplitLines(blockContent))
    ensures forall d :: d in final ==> d !in DomainsOf(p, SplitLines(whiteContent))
    ensures forall d :: d in final ==> p.domainMatch(d) && !p.ipMatch(d)
    ensures forall d :: d in final && MultiLabel(d) ==>
      !HasHigherIn(d, MultiLabelPart(DomainsOf(p, SplitLines(blockContent))))
    ensures var block := DomainsOf(p, SplitLines(blockContent));
      forall d :: (d in block && d !in DomainsOf(p, SplitLines(whiteContent))
        && (!MultiLabel(d) || !HasHigherIn(d, MultiLabelPart(block)))) ==> d in final
  {
    AscendingDistinct(final);
    var block := DomainsOf(p, SplitLines(blockContent));
    KeptUnlessAllowed(final, block, DomainsOf(p, SplitLines(whiteContent)));
    forall d | d in final ensures p.domainMatch(d) && !p.ipMatch(d) {
      assert d in Elems(final);
      DomainsOfValid(p, SplitLines(blockContent), d);
    }
    assert forall d :: d in final ==> d in Elems(final);
  }

  /** A list holding exactly the reduced block set minus the allowed set holds every block domain kept and not allowed. */
  lemma KeptUnlessAllowed(final: seq<string>, block: set<string>, white: set<string>)
    requires Elems(final) == Reduced(block) - white
    ensures forall d :: d in block && d !in white && (!MultiLabel(d) || !HasHigherIn(d, MultiLabelPart(block))) ==> d in final
  {
    forall d | d in block && d !in white && (!MultiLabel(d) || !HasHigherIn(d, MultiLabelPart(block))) ensures d in final {
      assert d in Reduced(block);
      assert d in Elems(final);
    }
  }

  /** The list depends only on the two texts: two runs over the same texts give the same list. */
  lemma FinalListDeterministic(p: Patterns, blockContent: string, whiteContent: string, a: seq<string>, b: seq<string>)
    requires IsFinalList(p, blockContent, whiteContent, a)
    requires IsFinalList(p, blockContent, whiteContent, b)
    ensures a == b
  {
    AscendingUnique(a, b);
  }
}
