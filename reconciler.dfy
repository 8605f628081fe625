/**
 * App: the name under which a run's lists and policy live, and App.run's
 * decisions once the two texts are downloaded: abort on no domains or too
 * many, leave matching lists alone (creating the policy if it is missing),
 * otherwise delete and recreate the lists and then create or update the
 * policy.
 */
module Reconciler {
  import opened Normalizer
  import opened Consolidator
  import opened Chunker
  import opened Gateway

  /** More final domains than this and a run stops. */
  const MaxDomains: nat := 300000

  /** The most domains one remote list is given. */
  const ChunkSize: nat := 1000

  /** f"[AdBlock-{adlist_name}]" */
  function NamePrefix(adlistName: string): (prefix: string)
    ensures |prefix| == |adlistName| + 10
    ensures prefix[..9] == "[AdBlock-" && prefix[9..|prefix| - 1] == adlistName && prefix[|prefix| - 1] == ']'
  {
    "[AdBlock-" + adlistName + "]"
  }

  /** f"{self.name_prefix} Block Ads" */
  function PolicyName(namePrefix: string): (name: string)
    ensures namePrefix <= name && name[|namePrefix|..] == " Block Ads"
  {
    namePrefix + " Block Ads"
  }

  function DigitChar(d: nat): (c: char)
    requires d < 10
    ensures '0' <= c <= '9'
  {
    ('0' as int + d) as char
  }

  /** The decimal digits of n, as f"{n}" writes them. */
  function NatToString(n: nat): (s: string)
    ensures |s| >= 1
    ensures forall k :: 0 <= k < |s| ==> '0' <= s[k] <= '9'
    ensures n > 0 ==> s[0] != '0'
  {
    if n < 10 then [DigitChar(n)] else NatToString(n / 10) + [DigitChar(n % 10)]
  }

  /** The number a string of decimal digits denotes, most significant digit first. */
  function DecimalValue(s: string): nat
  {
    if |s| == 0 then 0
    else
      var d := s[|s| - 1] as int - '0' as int;
      10 * DecimalValue(s[..|s| - 1]) + (if 0 <= d then d else 0)
  }

  /** The digits NatToString writes denote the number itself. */
  lemma {:induction false} NatToStringValue(n: nat)
    ensures DecimalValue(NatToString(n)) == n
  {
    var s := NatToString(n);
    if n >= 10 {
      assert s[..|s| - 1] == NatToString(n / 10);
      assert s[|s| - 1] == DigitChar(n % 10);
      NatToStringValue(n / 10);
    }
  }

  /** f"{self.name_prefix} {i + 1}", the name of the list that holds chunk i. */
  function ListName(namePrefix: string, number: nat): (name: string)
    ensures namePrefix <= name && |name| > |namePrefix| + 1
    ensures name[|namePrefix|] == ' ' && name[|namePrefix| + 1..] == NatToString(number)
  {
    namePrefix + " " + NatToString(number)
  }

  /** The lists a rebuild creates, numbered from 1, with ids from firstId on. */
  function NewLists(namePrefix: string, firstId: nat, chunks: seq<seq<string>>): (ls: seq<ListRecord>)
    ensures |ls| == |chunks|
    ensures forall k :: 0 <= k < |ls| ==> namePrefix <= ls[k].name
  {
    seq(|chunks|, k requires 0 <= k < |chunks| => ListRecord(firstId + k, ListName(namePrefix, k + 1), chunks[k]))
  }

  /** How a run ended. */
  datatype Outcome =
    | NoDomains            // nothing to block: stopped before touching the store
    | TooManyDomains       // over MaxDomains: stopped before touching the store
    | PolicyCreated        // the lists matched; the missing policy was created over them
    | AlreadyInSync        // the lists matched and a policy was there: nothing done
    | RebuiltNewPolicy     // lists recreated, a new policy created over them
    | RebuiltUpdatedPolicy // lists recreated, the one remaining policy pointed at them
    | MultiplePolicies     // lists recreated, then more than one policy found: the run raises

  /**
   * The end of a rebuild, from the store state s after the deletions and
   * the creation of the lists made: a policy over them is created when no
   * policy of the app is left, the one left is updated, or, with several
   * left, the run fails and the store stays as it is.
   */
  ghost predicate PolicySetUp(namePrefix: string, s: Snapshot, made: seq<ListRecord>, outcome: Outcome, s1: Snapshot)
  {
    var found := PoliciesNamed(s.policies, namePrefix);
    if |found| == 0 then
      outcome == RebuiltNewPolicy
      && s1 == Snapshot(s.lists, s.policies + [PolicyRecord(s.nextId, PolicyName(namePrefix), IdsOf(made))], s.nextId + 1)
    else if |found| == 1 then
      outcome == RebuiltUpdatedPolicy
      && s1 == Snapshot(s.lists, WithListIds(s.policies, found[0].id, PolicyName(namePrefix), IdsOf(made)), s.nextId)
    else
      outcome == MultiplePolicies && s1 == s
  }

  /**
   * What a rebuild does to the store: the policies named with the policy
   * name and the app's lists are deleted, one list per chunk of the domains
   * is created, and then the policy is set up over the new lists.
   */
  ghost predicate Rebuilt(namePrefix: string, s0: Snapshot, domains: seq<string>, outcome: Outcome, s1: Snapshot)
  {
    var made := NewLists(namePrefix, s0.nextId, Chunks(domains, ChunkSize));
    PolicySetUp(namePrefix, Replaced(namePrefix, s0, made), made, outcome, s1)
  }

  /** The store once the app's lists and the policies named with the policy name are gone and made is added. */
  function Replaced(namePrefix: string, s0: Snapshot, made: seq<ListRecord>): (s: Snapshot)
    ensures s.nextId == s0.nextId + |made|
  {
    Snapshot(DropIds(s0.lists, IdsOf(ListsNamed(s0.lists, namePrefix))) + made,
      PoliciesNotNamed(s0.policies, PolicyName(namePrefix)), s0.nextId + |made|)
  }

  /**
   * How a run over the final list of domains ends and what it leaves in
   * the store: no domains or too many stop it untouched; lists whose total
   * count matches get only a missing policy; anything else is rebuilt.
   */
  ghost predicate Reconciled(namePrefix: string, s0: Snapshot, domains: seq<string>, outcome: Outcome, s1: Snapshot)
  {
    if |domains| == 0 then outcome == NoDomains && s1 == s0
    else if |domains| > MaxDomains then outcome == TooManyDomains && s1 == s0
    else
      var current := ListsNamed(s0.lists, namePrefix);
      if |domains| == TotalCount(current) then
        if |PoliciesNamed(s0.policies, namePrefix)| == 0 then
          outcome == PolicyCreated
          && s1 == Snapshot(s0.lists, s0.policies + [PolicyRecord(s0.nextId, PolicyName(namePrefix), IdsOf(current))], s0.nextId + 1)
        else
          outcome == AlreadyInSync && s1 == s0
      else
        Rebuilt(namePrefix, s0, domains, outcome, s1)
  }

  class App {
    const adlistName: string
    const adlistUrls: seq<string>
    const whitelistUrls: seq<string>
    /** Every list and policy of this app is named with this prefix. */
    const namePrefix: string

    constructor (adlistName: string, adlistUrls: seq<string>, whitelistUrls: seq<string>)
      ensures this.adlistName == adlistName
      ensures this.adlistUrls == adlistUrls && this.whitelistUrls == whitelistUrls
      ensures namePrefix == NamePrefix(adlistName)
    {
      this.adlistName := adlistName;
      this.adlistUrls := adlistUrls;
      this.whitelistUrls := whitelistUrls;
      this.namePrefix := NamePrefix(adlistName);
    }

    /**
     * App.run after the downloads: blockContent and whiteContent are the
     * block-list and allow-list texts, each already joined in URL order.
     */
    method Run(store: Store, p: Patterns, blockContent: string, whiteContent: string)
      returns (outcome: Outcome, ghost domains: seq<string>)
      requires store.Valid()
      modifies store
      ensures store.Valid()
      ensures IsFinalList(p, blockContent, whiteContent, domains)
      ensures Reconciled(namePrefix, old(store.State()), domains, outcome, store.State())
    {
      var final := ConvertToDomainList(p, blockContent, whiteContent);
      domains := final;
      outcome := Reconcile(store, final);
    }

    /** The branching of App.run once the final list is known. */
    method Reconcile(store: Store, domains: seq<string>) returns (outcome: Outcome)
      requires store.Valid()
      modifies store
      ensures store.Valid()
      ensures Reconciled(namePrefix, old(store.State()), domains, outcome, store.State())
    {
      if |domains| == 0 {
        outcome := NoDomains;
        return;
      }
      if |domains| > MaxDomains {
        outcome := TooManyDomains;
        return;
      }

      var cfLists := store.GetLists(namePrefix);

      if |domains| == TotalCount(cfLists) {
        var cfPolicies := store.GetPolicies(namePrefix);
        if |cfPolicies| == 0 {
          var _ := store.CreatePolicy(PolicyName(namePrefix), IdsOf(cfLists));
          outcome := PolicyCreated;
        } else {
          outcome := AlreadyInSync;
        }
        return;
      }

      outcome := Rebuild(store, domains, cfLists);
    }

    /** The rebuild path of App.run. */
    method Rebuild(store: Store, domains: seq<string>, current: seq<ListRecord>) returns (outcome: Outcome)
      requires store.Valid() && current == ListsNamed(store.lists, namePrefix)
      modifies store
      ensures store.Valid()
      ensures Rebuilt(namePrefix, old(store.State()), domains, outcome, store.State())
    {
      ghost var s0 := store.State();
      var created := ReplaceLists(store, domains, current);
      ghost var mid := store.State();
      assert mid == Replaced(namePrefix, s0, created);
      outcome := SetUpPolicy(store, created);
      RebuiltBySteps(namePrefix, s0, domains, created, mid, outcome, store.State());
    }

    /** The first part of the rebuild path: the policy and the old lists go, one list per chunk comes. */
    method ReplaceLists(store: Store, domains: seq<string>, current: seq<ListRecord>) returns (created: seq<ListRecord>)
      requires store.Valid()
      modifies store
      ensures store.Valid()
      ensures created == NewLists(namePrefix, old(store.nextId), Chunks(domains, ChunkSize))
      ensures store.State() == Snapshot(DropIds(old(store.lists), IdsOf(current)) + created,
        PoliciesNotNamed(old(store.policies), PolicyName(namePrefix)), old(store.nextId) + |created|)
    {
      var policyPrefix := PolicyName(namePrefix);
      var _ := store.DeletePolicies(policyPrefix);
      DeleteLists(store, current);
      var chunks := ChunkList(domains, ChunkSize);
      created := CreateLists(store, chunks);
    }

    /** The end of the rebuild path: create the policy over the new lists, update the one left, or fail on several. */
    method SetUpPolicy(store: Store, created: seq<ListRecord>) returns (outcome: Outcome)
      requires store.Valid()
      modifies store
      ensures store.Valid()
      ensures PolicySetUp(namePrefix, old(store.State()), created, outcome, store.State())
    {
      var cfPolicies := store.GetPolicies(namePrefix);
      if |cfPolicies| == 0 {
        var _ := store.CreatePolicy(PolicyName(namePrefix), IdsOf(created));
        outcome := RebuiltNewPolicy;
      } else if |cfPolicies| != 1 {
        outcome := MultiplePolicies;
      } else {
        store.UpdatePolicy(PolicyName(namePrefix), cfPolicies[0].id, IdsOf(created));
        outcome := RebuiltUpdatedPolicy;
      }
    }

    /** The loop over cf_lists that deletes each of them. */
    method DeleteLists(store: Store, cfLists: seq<ListRecord>)
      requires store.Valid()
      modifies store
      ensures store.Valid()
      ensures store.lists == DropIds(old(store.lists), IdsOf(cfLists))
      ensures store.policies == old(store.policies) && store.nextId == old(store.nextId)
    {
      ghost var before := store.lists;
      DropNoIds(before);
      assert IdsOf(cfLists[..0]) == [];
      for k := 0 to |cfLists|
        invariant store.Valid() && store.lists == DropIds(before, IdsOf(cfLists[..k]))
        invariant store.policies == old(store.policies) && store.nextId == old(store.nextId)
      {
        store.DeleteList(cfLists[k].name, cfLists[k].id);
        DropIdsStep(before, IdsOf(cfLists[..k]), cfLists[k].id);
        assert IdsOf(cfLists[..k + 1]) == IdsOf(cfLists[..k]) + [cfLists[k].id];
      }
      assert cfLists[..|cfLists|] == cfLists;
    }

    /** The loop over the chunks that creates list i + 1 for chunk i. */
    method CreateLists(store: Store, chunks: seq<seq<string>>) returns (created: seq<ListRecord>)
      requires store.Valid()
      modifies store
      ensures store.Valid()
      ensures created == NewLists(namePrefix, old(store.nextId), chunks)
      ensures store.lists == old(store.lists) + created
      ensures store.policies == old(store.policies) && store.nextId == old(store.nextId) + |chunks|
    {
      created := [];
      for i := 0 to |chunks|
        invariant store.Valid() && created == NewLists(namePrefix, old(store.nextId), chunks[..i])
        invariant store.lists == old(store.lists) + created
        invariant store.policies == old(store.policies) && store.nextId == old(store.nextId) + i
      {
        var listName := ListName(namePrefix, i + 1);
        var l := store.CreateList(listName, chunks[i]);
        created := created + [l];
        assert NewLists(namePrefix, old(store.nextId), chunks[..i + 1]) == NewLists(namePrefix, old(store.nextId), chunks[..i]) + [l];
      }
      assert chunks[..|chunks|] == chunks;
    }
  }

  /** The two steps of the rebuild path make up what `Rebuilt` describes. */
  lemma RebuiltBySteps(namePrefix: string, s0: Snapshot, domains: seq<string>, made: seq<ListRecord>,
                       mid: Snapshot, outcome: Outcome, s1: Snapshot)
    requires made == NewLists(namePrefix, s0.nextId, Chunks(domains, ChunkSize))
    requires mid == Replaced(namePrefix, s0, made)
    requires PolicySetUp(namePrefix, mid, made, outcome, s1)
    ensures Rebuilt(namePrefix, s0, domains, outcome, s1)
  {
  }

  lemma {:induction false} TotalCountItems(ls: seq<ListRecord>)
    ensures TotalCount(ls) == |Flatten(ItemsOf(ls))|
  {
    if |ls| > 0 {
      assert ItemsOf(ls)[1..] == ItemsOf(ls[1..]);
      TotalCountItems(ls[1..]);
    }
  }

  lemma {:induction false} AllNamed(ls: seq<ListRecord>, prefix: string)
    requires forall k :: 0 <= k < |ls| ==> prefix <= ls[k].name
    ensures ListsNamed(ls, prefix) == ls
  {
    if |ls| > 0 {
      AllNamed(ls[1..], prefix);
      assert ls == [ls[0]] + ls[1..];
    }
  }

  /** After the app's lists are deleted and lists named with its prefix added, the app's lists are the added ones. */
  lemma NamedAfterRebuild(lists: seq<ListRecord>, namePrefix: string, made: seq<ListRecord>)
    requires forall k :: 0 <= k < |made| ==> namePrefix <= made[k].name
    ensures ListsNamed(DropIds(lists, IdsOf(ListsNamed(lists, namePrefix))) + made, namePrefix) == made
  {
    var named := ListsNamed(lists, namePrefix);
    ListsNamedComplete(lists, namePrefix);
    IdsOfMembers(named);
    forall l | l in lists && namePrefix <= l.name ensures l.id in IdsOf(named) {
      var k :| 0 <= k < |named| && named[k] == l;
    }
    NamedGone(lists, namePrefix, IdsOf(named));
    AllNamed(made, namePrefix);
    ListsNamedConcat(DropIds(lists, IdsOf(named)), made, namePrefix);
  }

  /** The lists made from the chunks of the domains hold the domains, at most ChunkSize each, and count as many. */
  lemma NewListsHoldDomains(namePrefix: string, firstId: nat, domains: seq<string>)
    ensures var made := NewLists(namePrefix, firstId, Chunks(domains, ChunkSize));
      && Flatten(ItemsOf(made)) == domains
      && TotalCount(made) == |domains|
      && (forall k :: 0 <= k < |made| ==> 0 < |made[k].items| <= ChunkSize)
  {
    var chunks := Chunks(domains, ChunkSize);
    var made := NewLists(namePrefix, firstId, chunks);
    ChunksCover(domains, ChunkSize);
    assert ItemsOf(made) == chunks;
    TotalCountItems(made);
  }

  /**
   * A rebuild converges: afterwards the lists named with the prefix are
   * exactly the new ones, they hold the final list chunk by chunk, and
   * their total count is its length, so the next run over the same texts
   * takes the branch that leaves the lists alone.
   */
  lemma RebuildConverges(lists: seq<ListRecord>, namePrefix: string, firstId: nat, domains: seq<string>)
    ensures var made := NewLists(namePrefix, firstId, Chunks(domains, ChunkSize));
      var after := DropIds(lists, IdsOf(ListsNamed(lists, namePrefix))) + made;
      && ListsNamed(after, namePrefix) == made
      && Flatten(ItemsOf(made)) == domains
      && TotalCount(ListsNamed(after, namePrefix)) == |domains|
      && (forall k :: 0 <= k < |made| ==> 0 < |made[k].items| <= ChunkSize)
  {
    NamedAfterRebuild(lists, namePrefix, NewLists(namePrefix, firstId, Chunks(domains, ChunkSize)));
    NewListsHoldDomains(namePrefix, firstId, domains);
  }

  lemma {:induction false} NatToStringInjective(a: nat, b: nat)
    requires NatToString(a) == NatToString(b)
    ensures a == b
    decreases a
  {
    var s := NatToString(a);
    if a >= 10 && b >= 10 {
      assert s[..|s| - 1] == NatToString(a / 10) && s[..|s| - 1] == NatToString(b / 10);
      assert s[|s| - 1] == DigitChar(a % 10) && s[|s| - 1] == DigitChar(b % 10);
      NatToStringInjective(a / 10, b / 10);
    }
  }

  /** The lists of one rebuild have distinct names. */
  lemma ListNamesDistinct(namePrefix: string, a: nat, b: nat)
    requires a != b
    ensures ListName(namePrefix, a) != ListName(namePrefix, b)
  {
    if ListName(namePrefix, a) == ListName(namePrefix, b) {
      var x := ListName(namePrefix, a);
      var n := |namePrefix| + 1;
      assert x[n..] == NatToString(a) && x[n..] == NatToString(b);
      NatToStringInjective(a, b);
    }
  }

  /**
   * Two apps whose names hold no ']' never see each other's records: no
   * name under one app's prefix starts with the other's prefix.
   */
  lemma NamespacesSeparate(a: string, b: string, suffix: string)
    requires a != b && ']' !in a && ']' !in b
    ensures !(NamePrefix(a) <= NamePrefix(b) + suffix)
  {
    var x := NamePrefix(a);
    var y := NamePrefix(b) + suffix;
    if |a| < |b| {
      assert x[9 + |a|] == ']' && y[9 + |a|] == b[|a|];
      assert b[|a|] in b;
    } else if |a| > |b| {
      assert y[9 + |b|] == ']' && x[9 + |b|] == a[|b|];
      assert a[|b|] in a;
    } else {
      assert x[9..9 + |a|] == a && y[9..9 + |b|] == b;
    }
  }

  /** With a ']' in a name the prefixes overlap: app a takes the records of app a + "]" + s for its own. */
  lemma NamespaceCollision(a: string, s: string, number: nat)
    ensures NamePrefix(a) <= ListName(NamePrefix(a + "]" + s), number)
  {
    assert NamePrefix(a + "]" + s) == NamePrefix(a) + s + "]";
  }

  /**
   * Once every policy named with the policy prefix is deleted, the policies
   * still found under the app's prefix are those named otherwise; when the
   * app's prefix only ever named its own policy, none is left and the
   * rebuild creates a fresh one.
   */
  lemma LeftoverPolicies(policies: seq<PolicyRecord>, namePrefix: string)
    ensures forall q :: q in PoliciesNamed(PoliciesNotNamed(policies, PolicyName(namePrefix)), namePrefix) ==>
      q in policies && namePrefix <= q.name && !(PolicyName(namePrefix) <= q.name)
    ensures (forall q :: q in policies && namePrefix <= q.name ==> PolicyName(namePrefix) <= q.name) ==>
      PoliciesNamed(PoliciesNotNamed(policies, PolicyName(namePrefix)), namePrefix) == []
  {
    var found := PoliciesNamed(PoliciesNotNamed(policies, PolicyName(namePrefix)), namePrefix);
    if |found| > 0 {
      assert found[0] in found;
    }
  }

  /** A policy with the app's policy name blocks exactly the app's lists. */
  ghost predicate PolicyOverLists(namePrefix: string, s: Snapshot)
  {
    exists q :: q in s.policies && q.name == PolicyName(namePrefix) && q.listIds == IdsOf(ListsNamed(s.lists, namePrefix))
  }

  /**
   * After a rebuild a policy of the app is in place, and the app's lists
   * count the domains. When the policy was created or updated, it blocks
   * exactly the new lists. When several policies were found, only old
   * policies under the prefix with other names are left, and none carries
   * the policy name.
   */
  lemma RebuiltInPlace(namePrefix: string, domains: seq<string>, s0: Snapshot, outcome: Outcome, s1: Snapshot)
    requires Rebuilt(namePrefix, s0, domains, outcome, s1)
    ensures |PoliciesNamed(s1.policies, namePrefix)| > 0
    ensures TotalCount(ListsNamed(s1.lists, namePrefix)) == |domains|
    ensures outcome == RebuiltNewPolicy || outcome == RebuiltUpdatedPolicy ==> PolicyOverLists(namePrefix, s1)
    ensures outcome == MultiplePolicies ==>
      forall q :: q in s1.policies ==> q in s0.policies && !(PolicyName(namePrefix) <= q.name)
  {
    var made := NewLists(namePrefix, s0.nextId, Chunks(domains, ChunkSize));
    var mid := Replaced(namePrefix, s0, made);
    RebuildConverges(s0.lists, namePrefix, s0.nextId, domains);
    assert ListsNamed(mid.lists, namePrefix) == made;
    PolicySetUpInPlace(namePrefix, mid, made, outcome, s1);
    assert mid.policies == PoliciesNotNamed(s0.policies, PolicyName(namePrefix));
  }

  /** Setting the policy up over lists that are the app's lists puts a policy of the app in place. */
  lemma PolicySetUpInPlace(namePrefix: string, s: Snapshot, made: seq<ListRecord>, outcome: Outcome, s1: Snapshot)
    requires PolicySetUp(namePrefix, s, made, outcome, s1)
    requires ListsNamed(s.lists, namePrefix) == made
    ensures s1.lists == s.lists
    ensures |PoliciesNamed(s1.policies, namePrefix)| > 0
    ensures outcome == RebuiltNewPolicy || outcome == RebuiltUpdatedPolicy ==> PolicyOverLists(namePrefix, s1)
    ensures outcome == MultiplePolicies ==> s1 == s
  {
    var own := PolicyName(namePrefix);
    PoliciesNamedComplete(s1.policies, namePrefix);
    var found := PoliciesNamed(s.policies, namePrefix);
    if |found| == 0 {
      var q := s1.policies[|s1.policies| - 1];
      assert q.name == own && q.listIds == IdsOf(made);
      assert q in s1.policies;
    } else if |found| == 1 {
      assert found[0] in s.policies;
      var k :| 0 <= k < |s.policies| && s.policies[k] == found[0];
      var q := s1.policies[k];
      assert q.name == own && q.listIds == IdsOf(made);
      assert q in s1.policies;
    } else {
      assert found[0] in s.policies;
    }
  }

  /** After a run that got past the size checks, a policy of the app is in place and the app's lists count the domains. */
  lemma RunInPlace(namePrefix: string, domains: seq<string>, s0: Snapshot, outcome: Outcome, s1: Snapshot)
    requires 0 < |domains| <= MaxDomains
    requires Reconciled(namePrefix, s0, domains, outcome, s1)
    ensures |PoliciesNamed(s1.policies, namePrefix)| > 0
    ensures TotalCount(ListsNamed(s1.lists, namePrefix)) == |domains|
    ensures outcome == PolicyCreated || outcome == RebuiltNewPolicy || outcome == RebuiltUpdatedPolicy ==>
      PolicyOverLists(namePrefix, s1)
  {
    if |domains| == TotalCount(ListsNamed(s0.lists, namePrefix)) {
      PoliciesNamedComplete(s1.policies, namePrefix);
      if |PoliciesNamed(s0.policies, namePrefix)| == 0 {
        var q := s1.policies[|s1.policies| - 1];
        assert q.name == PolicyName(namePrefix) && q.listIds == IdsOf(ListsNamed(s1.lists, namePrefix));
        assert q in s1.policies;
      }
    } else {
      RebuiltInPlace(namePrefix, domains, s0, outcome, s1);
    }
  }

  /**
   * Runs converge: once a run over a list of domains has got past the size
   * checks, whatever it did, a second run over the same list finds the
   * counts equal and a policy in place, and changes nothing.
   */
  lemma SecondRunDoesNothing(namePrefix: string, domains: seq<string>,
                             s0: Snapshot, o1: Outcome, s1: Snapshot, o2: Outcome, s2: Snapshot)
    requires 0 < |domains| <= MaxDomains
    requires Reconciled(namePrefix, s0, domains, o1, s1)
    requires Reconciled(namePrefix, s1, domains, o2, s2)
    ensures o2 == AlreadyInSync && s2 == s1
  {
    RunInPlace(namePrefix, domains, s0, o1, s1);
  }

  /**
   * A run that ends with several policies leaves no policy carrying the
   * policy name, and every later run over the same list finds the counts
   * equal and those old policies in place, so it changes nothing.
   */
  lemma StuckAfterMultiplePolicies(namePrefix: string, domains: seq<string>,
                                   s0: Snapshot, s1: Snapshot, o2: Outcome, s2: Snapshot)
    requires Reconciled(namePrefix, s0, domains, MultiplePolicies, s1)
    requires Reconciled(namePrefix, s1, domains, o2, s2)
    ensures o2 == AlreadyInSync && s2 == s1
    ensures forall q :: q in s2.policies ==> !(PolicyName(namePrefix) <= q.name)
  {
    RebuiltInPlace(namePrefix, domains, s0, MultiplePolicies, s1);
    SecondRunDoesNothing(namePrefix, domains, s0, MultiplePolicies, s1, o2, s2);
  }

  /** Deleting the app's lists and adding lists named with its prefix leaves the other lists as they were. */
  lemma RebuildLeavesOthers(lists: seq<ListRecord>, namePrefix: string, made: seq<ListRecord>)
    requires DistinctIds(lists)
    requires forall k :: 0 <= k < |made| ==> namePrefix <= made[k].name
    ensures ListsNotNamed(DropIds(lists, IdsOf(ListsNamed(lists, namePrefix))) + made, namePrefix)
      == ListsNotNamed(lists, namePrefix)
  {
    var others := ListsNotNamed(lists, namePrefix);
    DeletingNamedKeepsOthers(lists, namePrefix);
    ListsNotNamedConcat(others, made, namePrefix);
    NoneNamed(others, namePrefix);
    AllFilteredOut(made, namePrefix);
    assert others + [] == others;
  }

  /** The lists a rebuild leaves, whatever happens to the policy. */
  lemma RebuiltLists(namePrefix: string, domains: seq<string>, s0: Snapshot, outcome: Outcome, s1: Snapshot)
    requires Rebuilt(namePrefix, s0, domains, outcome, s1)
    ensures s1.lists == DropIds(s0.lists, IdsOf(ListsNamed(s0.lists, namePrefix)))
      + NewLists(namePrefix, s0.nextId, Chunks(domains, ChunkSize))
  {
  }

  /** The lists a rebuild creates take the next ids in turn. */
  lemma NewListsIds(namePrefix: string, firstId: nat, chunks: seq<seq<string>>)
    ensures var made := NewLists(namePrefix, firstId, chunks);
      forall k :: 0 <= k < |made| ==> made[k].id == firstId + k
  {
  }

  /** Setting up the policy keeps a well-formed store well formed. */
  lemma PolicySetUpWellFormed(namePrefix: string, s: Snapshot, made: seq<ListRecord>, outcome: Outcome, s1: Snapshot)
    requires WellFormed(s)
    requires PolicySetUp(namePrefix, s, made, outcome, s1)
    ensures WellFormed(s1)
  {
    var found := PoliciesNamed(s.policies, namePrefix);
    if |found| == 0 {
      AddingPolicyKeepsWellFormed(s, PolicyRecord(s.nextId, PolicyName(namePrefix), IdsOf(made)));
    } else if |found| == 1 {
      UpdatingPolicyKeepsWellFormed(s, found[0].id, PolicyName(namePrefix), IdsOf(made));
    }
  }

  /** Every way a run can end leaves a well-formed store well formed, so its ids stay distinct run after run. */
  lemma ReconciledWellFormed(namePrefix: string, domains: seq<string>, s0: Snapshot, outcome: Outcome, s1: Snapshot)
    requires WellFormed(s0)
    requires Reconciled(namePrefix, s0, domains, outcome, s1)
    ensures WellFormed(s1)
  {
    if |domains| == 0 || |domains| > MaxDomains {
    } else if |domains| == TotalCount(ListsNamed(s0.lists, namePrefix)) {
      if |PoliciesNamed(s0.policies, namePrefix)| == 0 {
        AddingPolicyKeepsWellFormed(s0, PolicyRecord(s0.nextId, PolicyName(namePrefix), IdsOf(ListsNamed(s0.lists, namePrefix))));
      }
    } else {
      RebuiltWellFormed(namePrefix, domains, s0, outcome, s1);
    }
  }

  /** A rebuild leaves a well-formed store well formed. */
  lemma RebuiltWellFormed(namePrefix: string, domains: seq<string>, s0: Snapshot, outcome: Outcome, s1: Snapshot)
    requires WellFormed(s0)
    requires Rebuilt(namePrefix, s0, domains, outcome, s1)
    ensures WellFormed(s1)
  {
    var made := NewLists(namePrefix, s0.nextId, Chunks(domains, ChunkSize));
    var mid := Replaced(namePrefix, s0, made);
    NewListsIds(namePrefix, s0.nextId, Chunks(domains, ChunkSize));
    ReplacedWellFormed(namePrefix, s0, made);
    PolicySetUpWellFormed(namePrefix, mid, made, outcome, s1);
  }

  /** Deleting the app's records and adding lists with the next ids keeps a store well formed. */
  lemma ReplacedWellFormed(namePrefix: string, s0: Snapshot, made: seq<ListRecord>)
    requires WellFormed(s0)
    requires forall k :: 0 <= k < |made| ==> made[k].id == s0.nextId + k
    ensures WellFormed(Replaced(namePrefix, s0, made))
  {
    var own := PolicyName(namePrefix);
    var ids := IdsOf(ListsNamed(s0.lists, namePrefix));
    var deleted := Snapshot(DropIds(s0.lists, ids), PoliciesNotNamed(s0.policies, own), s0.nextId);
    DeletingKeepsWellFormed(s0, ids, own);
    AddingListsKeepsWellFormed(deleted, made);
  }

  /**
   * On a well-formed store the lists outside the app's namespace survive
   * any two runs in a row, whatever lists of domains they reconcile.
   */
  lemma OtherListsUntouchedTwice(namePrefix: string, d1: seq<string>, d2: seq<string>,
                                 s0: Snapshot, o1: Outcome, s1: Snapshot, o2: Outcome, s2: Snapshot)
    requires WellFormed(s0)
    requires Reconciled(namePrefix, s0, d1, o1, s1)
    requires Reconciled(namePrefix, s1, d2, o2, s2)
    ensures WellFormed(s2)
    ensures ListsNotNamed(s2.lists, namePrefix) == ListsNotNamed(s0.lists, namePrefix)
  {
    ReconciledWellFormed(namePrefix, d1, s0, o1, s1);
    ReconciledWellFormed(namePrefix, d2, s1, o2, s2);
    OtherListsUntouched(namePrefix, d1, s0, o1, s1);
    OtherListsUntouched(namePrefix, d2, s1, o2, s2);
  }

  /** Where list ids are distinct, no run touches a list outside the app's namespace. */
  lemma OtherListsUntouched(namePrefix: string, domains: seq<string>, s0: Snapshot, outcome: Outcome, s1: Snapshot)
    requires DistinctIds(s0.lists)
    requires Reconciled(namePrefix, s0, domains, outcome, s1)
    ensures ListsNotNamed(s1.lists, namePrefix) == ListsNotNamed(s0.lists, namePrefix)
  {
    if |domains| == 0 || |domains| > MaxDomains || |domains| == TotalCount(ListsNamed(s0.lists, namePrefix)) {
      assert s1.lists == s0.lists;
    } else {
      RebuiltLists(namePrefix, domains, s0, outcome, s1);
      RebuildLeavesOthers(s0.lists, namePrefix, NewLists(namePrefix, s0.nextId, Chunks(domains, ChunkSize)));
    }
  }
}
