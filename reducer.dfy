/**
 * App.remove_subdomains: drops every multi-label domain that has a strict
 * ancestor (one or more leading labels removed) among the multi-label
 * domains of the set.
 */
module Reducer {
  import opened Text

  /** domain.split(".") */
  function Labels(d: string): (parts: seq<string>)
    ensures |parts| >= 1
  {
    Split(d, '.')
  }

  predicate MultiLabel(d: string)
  {
    |Labels(d)| > 1
  }

  /** ".".join(parts[i:]): the ancestor of d with its first i labels removed. */
  function Higher(d: string, i: nat): string
    requires 1 <= i < |Labels(d)|
  {
    Join(Labels(d)[i..], '.')
  }

  /** d has a strict ancestor in s. */
  predicate HasHigherIn(d: string, s: set<string>)
  {
    exists i :: 1 <= i < |Labels(d)| && Higher(d, i) in s
  }

  function MultiLabelPart(ds: set<string>): set<string>
  {
    set d | d in ds && MultiLabel(d)
  }

  /** What App.remove_subdomains keeps of ds. */
  function Reduced(ds: set<string>): set<string>
  {
    set d | d in ds && (!MultiLabel(d) || !HasHigherIn(d, MultiLabelPart(ds)))
  }

  /** App.remove_subdomains */
  method RemoveSubdomains(domains: set<string>) returns (top: set<string>)
    ensures top == Reduced(domains)
    ensures top <= domains
    ensures forall d :: d in domains && !MultiLabel(d) ==> d in top
  {
    top := {};
    var subdomains: set<string> := {};
    var rest := domains;
    while rest != {}
      invariant rest <= domains
      invariant top + subdomains == domains - rest
      invariant forall d :: d in top ==> !MultiLabel(d)
      invariant forall d :: d in subdomains ==> MultiLabel(d)
      decreases rest
    {
      var domain :| domain in rest;
      var parts := Split(domain, '.');
      if |parts| == 1 {
        top := top + {domain};
      } else {
        subdomains := subdomains + {domain};
      }
      rest := rest - {domain};
    }
    assert subdomains == MultiLabelPart(domains);
    ghost var singles := top;

    var pending := subdomains;
    while pending != {}
      invariant pending <= subdomains
      invariant forall d :: d in top <==>
        d in singles || (d in subdomains - pending && !HasHigherIn(d, subdomains))
      decreases pending
    {
      var subdomain :| subdomain in pending;
      var parts := Split(subdomain, '.');
      var isSubdomain := false;
      ghost var found := 0;
      for i := 1 to |parts|
        invariant !isSubdomain
        invariant forall j :: 1 <= j < i ==> Higher(subdomain, j) !in subdomains
      {
        var higherDomain := Join(parts[i..], '.');
        if higherDomain in subdomains {
          isSubdomain := true;
          found := i;
          break;
        }
      }
      assert isSubdomain ==> 1 <= found < |Labels(subdomain)| && Higher(subdomain, found) in subdomains;
      assert isSubdomain <==> HasHigherIn(subdomain, subdomains);
      if !isSubdomain {
        top := top + {subdomain};
      }
      pending := pending - {subdomain};
    }
  }

  /** The labels of an ancestor are the trailing labels of the domain. */
  lemma HigherLabels(d: string, i: nat)
    requires 1 <= i < |Labels(d)|
    ensures Labels(Higher(d, i)) == Labels(d)[i..]
  {
    SplitJoin(Labels(d)[i..], '.');
  }

  /** An ancestor sits on a dot boundary at the end of the domain: d is a prefix, a dot, then the ancestor. */
  lemma HigherIsDotSuffix(d: string, i: nat)
    requires 1 <= i < |Labels(d)|
    ensures d == Join(Labels(d)[..i], '.') + "." + Higher(d, i)
    ensures |Higher(d, i)| < |d|
  {
    JoinSplit(d, '.');
    JoinAt(Labels(d), '.', i);
  }

  /** An ancestor of an ancestor is an ancestor. */
  lemma HigherOfHigher(d: string, i: nat, j: nat)
    requires 1 <= i < |Labels(d)|
    requires 1 <= j < |Labels(Higher(d, i))|
    ensures i + j < |Labels(d)|
    ensures Higher(Higher(d, i), j) == Higher(d, i + j)
  {
    HigherLabels(d, i);
    assert Labels(d)[i..][j..] == Labels(d)[i + j..];
  }

  /** The nearest-to-the-root multi-label ancestor of a domain that is present is always kept. */
  lemma ShortestHigherKept(ds: set<string>, d: string, i: nat)
    requires d in ds && 1 <= i < |Labels(d)|
    requires Higher(d, i) in MultiLabelPart(ds)
    requires forall j :: i < j < |Labels(d)| ==> Higher(d, j) !in MultiLabelPart(ds)
    ensures Higher(d, i) in Reduced(ds)
  {
    var a := Higher(d, i);
    if HasHigherIn(a, MultiLabelPart(ds)) {
      var j :| 1 <= j < |Labels(a)| && Higher(a, j) in MultiLabelPart(ds);
      HigherOfHigher(d, i, j);
      assert false;
    }
  }

  /** Nothing is lost: every input domain is kept or has a kept ancestor. */
  lemma {:induction false} Coverage(ds: set<string>, d: string)
    requires d in ds
    ensures d in Reduced(ds) || exists i :: 1 <= i < |Labels(d)| && Higher(d, i) in Reduced(ds)
    decreases |d|
  {
    if d !in Reduced(ds) {
      var i :| 1 <= i < |Labels(d)| && Higher(d, i) in MultiLabelPart(ds);
      var a := Higher(d, i);
      HigherIsDotSuffix(d, i);
      Coverage(ds, a);
      if a !in Reduced(ds) {
        var j :| 1 <= j < |Labels(a)| && Higher(a, j) in Reduced(ds);
        HigherOfHigher(d, i, j);
      }
    }
  }

  /** No kept multi-label domain is an ancestor of another kept multi-label domain. */
  lemma NoKeptAncestor(ds: set<string>, a: string, i: nat)
    requires a in Reduced(ds) && MultiLabel(a)
    requires 1 <= i < |Labels(a)| && MultiLabel(Higher(a, i))
    ensures Higher(a, i) !in Reduced(ds)
  {
    assert Higher(a, i) !in MultiLabelPart(ds);
  }

  /** Reducing twice keeps what reducing once kept. */
  lemma ReducedIdempotent(ds: set<string>)
    ensures Reduced(Reduced(ds)) == Reduced(ds)
  {
    var r := Reduced(ds);
    assert MultiLabelPart(r) <= MultiLabelPart(ds);
    forall d | d in r ensures d in Reduced(r) {
      assert forall i :: 1 <= i < |Labels(d)| && Higher(d, i) in MultiLabelPart(r) ==> Higher(d, i) in MultiLabelPart(ds);
    }
  }

  lemma LabelsCons(a: string, rest: string)
    requires '.' !in a
    ensures Labels(a + "." + rest) == [a] + Labels(rest)
  {
    var s := a + "." + rest;
    IndexOfJoined(a, '.', rest);
    assert s[..|a|] == a && s[|a| + 1..] == rest;
  }

  /**
   * A single-label domain never removes a descendant: "com" and "a.com" are
   * both kept, though "com" is an ancestor of "a.com".
   */
  lemma SingleLabelAncestorIgnored()
    ensures Higher("a.com", 1) == "com"
    ensures Reduced({"com", "a.com"}) == {"com", "a.com"}
  {
    assert Labels("com") == ["com"];
    LabelsCons("a", "com");
    assert "a" + "." + "com" == "a.com";
    assert Labels("a.com") == ["a", "com"];
    assert MultiLabelPart({"com", "a.com"}) == {"a.com"};
  }
}
