/**
 * An in-memory stand-in for the remote list and policy store that the
 * `cloudflare` module talks to: lists with an id, a name and their items,
 * and gateway policies with an id, a name and the ids of the lists they
 * use. Lookups by name select the records whose name starts with a prefix.
 */
module Gateway {

  datatype ListRecord = ListRecord(id: nat, name: string, items: seq<string>)

  datatype PolicyRecord = PolicyRecord(id: nat, name: string, listIds: seq<nat>)

  /** The lists whose name starts with prefix, in store order. */
  function ListsNamed(ls: seq<ListRecord>, prefix: string): (r: seq<ListRecord>)
    ensures forall l :: l in r ==> l in ls && prefix <= l.name
  {
    if |ls| == 0 then []
    else (if prefix <= ls[0].name then [ls[0]] else []) + ListsNamed(ls[1..], prefix)
  }

  /** The lists whose name does not start with prefix, in store order. */
  function ListsNotNamed(ls: seq<ListRecord>, prefix: string): (r: seq<ListRecord>)
    ensures forall l :: l in r ==> l in ls && !(prefix <= l.name)
  {
    if |ls| == 0 then []
    else (if prefix <= ls[0].name then [] else [ls[0]]) + ListsNotNamed(ls[1..], prefix)
  }

  /** The lists whose id is not among ids, in store order. */
  function DropIds(ls: seq<ListRecord>, ids: seq<nat>): (r: seq<ListRecord>)
    ensures forall l :: l in r ==> l in ls && l.id !in ids
  {
    if |ls| == 0 then []
    else (if ls[0].id in ids then [] else [ls[0]]) + DropIds(ls[1..], ids)
  }

  /** [l["id"] for l in lists] */
  function IdsOf(ls: seq<ListRecord>): (ids: seq<nat>)
    ensures |ids| == |ls|
    ensures forall i :: 0 <= i < |ls| ==> ids[i] == ls[i].id
  {
    seq(|ls|, i requires 0 <= i < |ls| => ls[i].id)
  }

  function ItemsOf(ls: seq<ListRecord>): (items: seq<seq<string>>)
    ensures |items| == |ls|
  {
    seq(|ls|, i requires 0 <= i < |ls| => ls[i].items)
  }

  /** sum(l["count"] for l in lists) */
  function TotalCount(ls: seq<ListRecord>): nat
  {
    if |ls| == 0 then 0 else |ls[0].items| + TotalCount(ls[1..])
  }

  predicate DistinctIds(ls: seq<ListRecord>)
  {
    forall i, j :: 0 <= i < j < |ls| ==> ls[i].id != ls[j].id
  }

  /** The policies whose name starts with prefix, in store order. */
  function PoliciesNamed(ps: seq<PolicyRecord>, prefix: string): (r: seq<PolicyRecord>)
    ensures forall q :: q in r ==> q in ps && prefix <= q.name
  {
    if |ps| == 0 then []
    else (if prefix <= ps[0].name then [ps[0]] else []) + PoliciesNamed(ps[1..], prefix)
  }

  /** The policies whose name does not start with prefix, in store order. */
  function PoliciesNotNamed(ps: seq<PolicyRecord>, prefix: string): (r: seq<PolicyRecord>)
    ensures forall q :: q in r ==> q in ps && !(prefix <= q.name)
  {
    if |ps| == 0 then []
    else (if prefix <= ps[0].name then [] else [ps[0]]) + PoliciesNotNamed(ps[1..], prefix)
  }

  /** The policies with the one whose id is given renamed and pointed at listIds. */
  function WithListIds(ps: seq<PolicyRecord>, id: nat, name: string, listIds: seq<nat>): seq<PolicyRecord>
  {
    seq(|ps|, i requires 0 <= i < |ps| => if ps[i].id == id then PolicyRecord(id, name, listIds) else ps[i])
  }

  predicate DistinctPolicyIds(ps: seq<PolicyRecord>)
  {
    forall i, j :: 0 <= i < j < |ps| ==> ps[i].id != ps[j].id
  }

  /** What the store holds at one moment. */
  datatype Snapshot = Snapshot(lists: seq<ListRecord>, policies: seq<PolicyRecord>, nextId: nat)

  /**
   * The store hands out every id once: no two lists and no two policies
   * share an id, and every id in use is below the next one given out.
   */
  ghost predicate WellFormed(s: Snapshot)
  {
    && DistinctIds(s.lists)
    && DistinctPolicyIds(s.policies)
    && (forall i :: 0 <= i < |s.lists| ==> s.lists[i].id < s.nextId)
    && (forall i :: 0 <= i < |s.policies| ==> s.policies[i].id < s.nextId)
  }

  class Store {
    var lists: seq<ListRecord>
    var policies: seq<PolicyRecord>
    /** The id the next created record gets. */
    var nextId: nat

    function State(): Snapshot
      reads this
    {
      Snapshot(lists, policies, nextId)
    }

    ghost predicate Valid()
      reads this
    {
      WellFormed(State())
    }

    constructor ()
      ensures lists == [] && policies == [] && nextId == 0
      ensures Valid()
    {
      lists, policies, nextId := [], [], 0;
    }

    /** cloudflare.get_lists */
    method GetLists(prefix: string) returns (r: seq<ListRecord>)
      ensures r == ListsNamed(lists, prefix)
    {
      r := ListsNamed(lists, prefix);
    }

    /** cloudflare.create_list */
    method CreateList(name: string, items: seq<string>) returns (r: ListRecord)
      requires Valid()
      modifies this
      ensures Valid()
      ensures r == ListRecord(old(nextId), name, items)
      ensures lists == old(lists) + [r]
      ensures policies == old(policies) && nextId == old(nextId) + 1
    {
      r := ListRecord(nextId, name, items);
      lists := lists + [r];
      nextId := nextId + 1;
    }

    /** cloudflare.delete_list */
    method DeleteList(name: string, id: nat)
      requires Valid()
      modifies this
      ensures Valid()
      ensures lists == DropIds(old(lists), [id])
      ensures policies == old(policies) && nextId == old(nextId)
    {
      DropIdsDistinct(lists, [id]);
      lists := DropIds(lists, [id]);
    }

    /** cloudflare.get_firewall_policies */
    method GetPolicies(prefix: string) returns (r: seq<PolicyRecord>)
      ensures r == PoliciesNamed(policies, prefix)
    {
      r := PoliciesNamed(policies, prefix);
    }

    /** cloudflare.create_gateway_policy */
    method CreatePolicy(name: string, listIds: seq<nat>) returns (r: PolicyRecord)
      requires Valid()
      modifies this
      ensures Valid()
      ensures r == PolicyRecord(old(nextId), name, listIds)
      ensures policies == old(policies) + [r]
      ensures lists == old(lists) && nextId == old(nextId) + 1
    {
      r := PolicyRecord(nextId, name, listIds);
      policies := policies + [r];
      nextId := nextId + 1;
    }

    /** cloudflare.update_gateway_policy */
    method UpdatePolicy(name: string, id: nat, listIds: seq<nat>)
      requires Valid()
      modifies this
      ensures Valid()
      ensures policies == WithListIds(old(policies), id, name, listIds)
      ensures lists == old(lists) && nextId == old(nextId)
    {
      policies := WithListIds(policies, id, name, listIds);
    }

    /** cloudflare.delete_gateway_policy: removes the policies named with the prefix and returns how many. */
    method DeletePolicies(prefix: string) returns (deleted: nat)
      requires Valid()
      modifies this
      ensures Valid()
      ensures policies == PoliciesNotNamed(old(policies), prefix)
      ensures deleted == |PoliciesNamed(old(policies), prefix)|
      ensures lists == old(lists) && nextId == old(nextId)
    {
      PoliciesNotNamedDistinct(policies, prefix);
      deleted := |PoliciesNamed(policies, prefix)|;
      policies := PoliciesNotNamed(policies, prefix);
    }
  }

  lemma {:induction false} ListsNamedConcat(a: seq<ListRecord>, b: seq<ListRecord>, prefix: string)
    ensures ListsNamed(a + b, prefix) == ListsNamed(a, prefix) + ListsNamed(b, prefix)
  {
    if |a| > 0 {
      assert (a + b)[1..] == a[1..] + b;
      ListsNamedConcat(a[1..], b, prefix);
    } else {
      assert a + b == b;
    }
  }

  /** Deleting no id keeps every list. */
  lemma {:induction false} DropNoIds(ls: seq<ListRecord>)
    ensures DropIds(ls, []) == ls
  {
    if |ls| > 0 {
      DropNoIds(ls[1..]);
      assert ls == [ls[0]] + ls[1..];
    }
  }

  /** Deleting one more id after some ids is deleting them all. */
  lemma {:induction false} DropIdsStep(ls: seq<ListRecord>, ids: seq<nat>, id: nat)
    ensures DropIds(DropIds(ls, ids), [id]) == DropIds(ls, ids + [id])
  {
    if |ls| > 0 {
      DropIdsStep(ls[1..], ids, id);
      var rest := DropIds(ls[1..], ids);
      assert ls[0].id in ids + [id] <==> ls[0].id in ids || ls[0].id == id;
      if ls[0].id !in ids {
        var d := DropIds(ls, ids);
        assert d == [ls[0]] + rest;
        assert d[0] == ls[0] && d[1..] == rest;
        assert DropIds(d, [id]) == (if ls[0].id == id then [] else [ls[0]]) + DropIds(rest, [id]);
      } else {
        assert DropIds(ls, ids) == rest;
        assert DropIds(ls, ids + [id]) == DropIds(ls[1..], ids + [id]);
      }
    }
  }

  /** Deleting lists keeps the ids of the remaining ones distinct. */
  lemma {:induction false} DropIdsDistinct(ls: seq<ListRecord>, ids: seq<nat>)
    requires DistinctIds(ls)
    ensures DistinctIds(DropIds(ls, ids))
  {
    if |ls| > 0 {
      var rest := DropIds(ls[1..], ids);
      DropIdsDistinct(ls[1..], ids);
      if ls[0].id !in ids {
        forall l | l in rest ensures l.id != ls[0].id {
          var k :| 0 <= k < |ls[1..]| && ls[1..][k] == l;
          assert ls[k + 1] == l;
        }
        var d := [ls[0]] + rest;
        forall i, j | 0 <= i < j < |d| ensures d[i].id != d[j].id {
          assert d[j] == rest[j - 1] && rest[j - 1] in rest;
          if i > 0 {
            assert d[i] == rest[i - 1];
          }
        }
      }
    }
  }

  /** Deleting policies keeps the ids of the remaining ones distinct. */
  lemma {:induction false} PoliciesNotNamedDistinct(ps: seq<PolicyRecord>, prefix: string)
    requires DistinctPolicyIds(ps)
    ensures DistinctPolicyIds(PoliciesNotNamed(ps, prefix))
  {
    if |ps| > 0 {
      var rest := PoliciesNotNamed(ps[1..], prefix);
      PoliciesNotNamedDistinct(ps[1..], prefix);
      if !(prefix <= ps[0].name) {
        forall q | q in rest ensures q.id != ps[0].id {
          var k :| 0 <= k < |ps[1..]| && ps[1..][k] == q;
          assert ps[k + 1] == q;
        }
        var d := [ps[0]] + rest;
        forall i, j | 0 <= i < j < |d| ensures d[i].id != d[j].id {
          assert d[j] == rest[j - 1] && rest[j - 1] in rest;
          if i > 0 {
            assert d[i] == rest[i - 1];
          }
        }
      }
    }
  }

  /** Deleting lists and policies keeps a store well formed. */
  lemma DeletingKeepsWellFormed(s: Snapshot, ids: seq<nat>, prefix: string)
    requires WellFormed(s)
    ensures WellFormed(Snapshot(DropIds(s.lists, ids), PoliciesNotNamed(s.policies, prefix), s.nextId))
  {
    DropIdsDistinct(s.lists, ids);
    PoliciesNotNamedDistinct(s.policies, prefix);
    var ls := DropIds(s.lists, ids);
    forall i | 0 <= i < |ls| ensures ls[i].id < s.nextId {
      assert ls[i] in ls;
      var k :| 0 <= k < |s.lists| && s.lists[k] == ls[i];
    }
    var ps := PoliciesNotNamed(s.policies, prefix);
    forall i | 0 <= i < |ps| ensures ps[i].id < s.nextId {
      assert ps[i] in ps;
      var k :| 0 <= k < |s.policies| && s.policies[k] == ps[i];
    }
  }

  /** Lists added with the next ids in turn keep a store well formed. */
  lemma AddingListsKeepsWellFormed(s: Snapshot, made: seq<ListRecord>)
    requires WellFormed(s)
    requires forall k :: 0 <= k < |made| ==> made[k].id == s.nextId + k
    ensures WellFormed(Snapshot(s.lists + made, s.policies, s.nextId + |made|))
  {
    var ls := s.lists + made;
    forall i, j | 0 <= i < j < |ls| ensures ls[i].id != ls[j].id {
      if j >= |s.lists| {
        assert ls[j] == made[j - |s.lists|];
        if i >= |s.lists| {
          assert ls[i] == made[i - |s.lists|];
        } else {
          assert ls[i] == s.lists[i];
        }
      } else {
        assert ls[i] == s.lists[i] && ls[j] == s.lists[j];
      }
    }
    forall i | 0 <= i < |ls| ensures ls[i].id < s.nextId + |made| {
      if i >= |s.lists| {
        assert ls[i] == made[i - |s.lists|];
      } else {
        assert ls[i] == s.lists[i];
      }
    }
  }

  /** A policy added with the next id keeps a store well formed. */
  lemma AddingPolicyKeepsWellFormed(s: Snapshot, q: PolicyRecord)
    requires WellFormed(s) && q.id == s.nextId
    ensures WellFormed(Snapshot(s.lists, s.policies + [q], s.nextId + 1))
  {
  }

  /** Pointing a policy at other lists keeps a store well formed. */
  lemma UpdatingPolicyKeepsWellFormed(s: Snapshot, id: nat, name: string, listIds: seq<nat>)
    requires WellFormed(s)
    ensures WellFormed(Snapshot(s.lists, WithListIds(s.policies, id, name, listIds), s.nextId))
  {
  }

  /** Deleting the ids of every list named with a prefix leaves no list so named. */
  lemma {:induction false} NamedGone(ls: seq<ListRecord>, prefix: string, ids: seq<nat>)
    requires forall l :: l in ls && prefix <= l.name ==> l.id in ids
    ensures ListsNamed(DropIds(ls, ids), prefix) == []
  {
    if |ls| > 0 {
      assert ls[0] in ls;
      assert forall l :: l in ls[1..] ==> l in ls;
      NamedGone(ls[1..], prefix, ids);
      var rest := DropIds(ls[1..], ids);
      if ls[0].id !in ids {
        var d := DropIds(ls, ids);
        assert d == [ls[0]] + rest;
        assert d[0] == ls[0] && d[1..] == rest;
        assert !(prefix <= ls[0].name);
        assert ListsNamed(d, prefix) == ListsNamed(rest, prefix);
      } else {
        assert DropIds(ls, ids) == rest;
      }
    }
  }

  /** If an id is deleted exactly when its list is named with the prefix, what stays is the other lists. */
  lemma {:induction false} OnlyNamedGone(ls: seq<ListRecord>, prefix: string, ids: seq<nat>)
    requires forall l :: l in ls ==> (l.id in ids <==> prefix <= l.name)
    ensures DropIds(ls, ids) == ListsNotNamed(ls, prefix)
  {
    if |ls| > 0 {
      assert ls[0] in ls;
      assert forall l :: l in ls[1..] ==> l in ls;
      OnlyNamedGone(ls[1..], prefix, ids);
    }
  }

  lemma IdsOfMembers(ls: seq<ListRecord>)
    ensures forall i :: 0 <= i < |ls| ==> ls[i].id in IdsOf(ls)
    ensures forall x :: x in IdsOf(ls) ==> exists i :: 0 <= i < |ls| && ls[i].id == x
  {
    forall i | 0 <= i < |ls| ensures ls[i].id in IdsOf(ls) {
      assert IdsOf(ls)[i] == ls[i].id;
    }
  }

  /**
   * With distinct ids, deleting the ids of the lists named with a prefix
   * removes those lists and no other.
   */
  lemma DeletingNamedKeepsOthers(ls: seq<ListRecord>, prefix: string)
    requires DistinctIds(ls)
    ensures DropIds(ls, IdsOf(ListsNamed(ls, prefix))) == ListsNotNamed(ls, prefix)
  {
    var named := ListsNamed(ls, prefix);
    IdsOfMembers(named);
    ListsNamedComplete(ls, prefix);
    forall l | l in ls ensures l.id in IdsOf(named) <==> prefix <= l.name {
      if l.id in IdsOf(named) {
        var i :| 0 <= i < |named| && named[i].id == l.id;
        assert named[i] in ls;
        var a :| 0 <= a < |ls| && ls[a] == l;
        var b :| 0 <= b < |ls| && ls[b] == named[i];
        assert a == b;
      }
      if prefix <= l.name {
        assert l in named;
        var i :| 0 <= i < |named| && named[i] == l;
      }
    }
    OnlyNamedGone(ls, prefix, IdsOf(named));
  }

  lemma {:induction false} ListsNamedComplete(ls: seq<ListRecord>, prefix: string)
    ensures forall l :: l in ls && prefix <= l.name ==> l in ListsNamed(ls, prefix)
  {
    if |ls| > 0 {
      ListsNamedComplete(ls[1..], prefix);
      assert forall l :: l in ls ==> l == ls[0] || l in ls[1..];
    }
  }

  lemma {:induction false} PoliciesNamedComplete(ps: seq<PolicyRecord>, prefix: string)
    ensures forall q :: q in ps && prefix <= q.name ==> q in PoliciesNamed(ps, prefix)
  {
    if |ps| > 0 {
      PoliciesNamedComplete(ps[1..], prefix);
      assert forall q :: q in ps ==> q == ps[0] || q in ps[1..];
    }
  }

  lemma {:induction false} ListsNotNamedConcat(a: seq<ListRecord>, b: seq<ListRecord>, prefix: string)
    ensures ListsNotNamed(a + b, prefix) == ListsNotNamed(a, prefix) + ListsNotNamed(b, prefix)
  {
    if |a| > 0 {
      assert (a + b)[1..] == a[1..] + b;
      ListsNotNamedConcat(a[1..], b, prefix);
    } else {
      assert a + b == b;
    }
  }

  /** Filtering out the lists named with a prefix keeps a sequence none of whose lists is so named. */
  lemma {:induction false} NoneNamed(ls: seq<ListRecord>, prefix: string)
    requires forall l :: l in ls ==> !(prefix <= l.name)
    ensures ListsNotNamed(ls, prefix) == ls
  {
    if |ls| > 0 {
      assert ls[0] in ls;
      assert forall l :: l in ls[1..] ==> l in ls;
      NoneNamed(ls[1..], prefix);
      assert ls == [ls[0]] + ls[1..];
    }
  }

  /** Filtering out the lists named with a prefix from lists all so named leaves nothing. */
  lemma {:induction false} AllFilteredOut(ls: seq<ListRecord>, prefix: string)
    requires forall k :: 0 <= k < |ls| ==> prefix <= ls[k].name
    ensures ListsNotNamed(ls, prefix) == []
  {
    if |ls| > 0 {
      AllFilteredOut(ls[1..], prefix);
    }
  }
}
