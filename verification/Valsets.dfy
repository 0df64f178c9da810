/**
  Validator sets as the relayer compares them: checkIfValsetsDiffer sorts both member lists
  in place and compares them position by position.
 */
module Valsets {
  import opened Sorting
  import opened Strings

  /** A bridge validator; addresses are compared as byte strings. */
  datatype Member = Member(address: string, power: nat)

  // ---------- the canonical order ----------

  /** BridgeValidators.Sort: higher power first, then by address. */
  predicate Before(x: Member, y: Member) {
    if x.power == y.power then StringLess(x.address, y.address) else x.power > y.power
  }

  lemma BeforeSeparates(s: seq<Member>)
    ensures Separates(s, Before)
  {
    forall x | x in s ensures !Before(x, x) { StringIrreflexive(x.address); }
    forall x, y, z | x in s && y in s && z in s && Before(x, y) && Before(y, z) ensures Before(x, z) {
      if x.power == y.power == z.power { StringTransitive(x.address, y.address, z.address); }
    }
    forall x, y | x in s && y in s && !Before(x, y) && !Before(y, x) ensures x == y {
      StringTotal(x.address, y.address);
    }
  }

  /** Sorting is canonical: two lists have the same sorted form exactly when they are rearrangements. */
  lemma SortedFormsAgree(a: seq<Member>, b: seq<Member>)
    ensures Sort(a, Before) == Sort(b, Before) <==> multiset(a) == multiset(b)
  {
    BeforeSeparates(a);
    BeforeSeparates(b);
    BeforeSeparates(Sort(a, Before));
    SortSorted(a, Before);
    SortSorted(b, Before);
    if multiset(a) == multiset(b) {
      OrderedListingUnique(Sort(a, Before), Sort(b, Before), Before);
    }
  }

  lemma SortLength(s: seq<Member>)
    ensures |Sort(s, Before)| == |s|
  {
    assert |multiset(Sort(s, Before))| == |multiset(s)|;
  }

  method CopyBack(a: array<Member>, s: seq<Member>)
    requires a.Length == |s|
    modifies a
    ensures a[..] == s
  {
    for k := 0 to a.Length
      invariant forall i :: 0 <= i < k ==> a[i] == s[i]
    {
      a[k] := s[k];
    }
  }

  method SortMembers(a: array<Member>)
    modifies a
    ensures a[..] == Sort(old(a[..]), Before) && multiset(a[..]) == multiset(old(a[..]))
    ensures forall i, j :: 0 <= i < j < a.Length ==>
              a[i].power > a[j].power || (a[i].power == a[j].power && !StringLess(a[j].address, a[i].address))
  {
    SortLength(a[..]);
    BeforeSeparates(a[..]);
    SortSorted(a[..], Before);
    CopyBack(a, Sort(a[..], Before));
  }

  // ---------- comparing two sets ----------

  class Valset {
    const nonce: nat
    const members: array<Member>

    constructor (nonce: nat, members: array<Member>)
      ensures this.nonce == nonce && this.members == members
    {
      this.nonce, this.members := nonce, members;
    }
  }

  /** The error lines checkIfValsetsDiffer logs. */
  datatype Report =
    | NoValsetOnCosmos | WrongNonce | DifferentLength | DifferentAddress(index: nat) | DifferentPower(index: nat)

  /** The bootstrapping case, or the same nonce and the same members in any order. */
  ghost predicate Matching(cosmos: Valset?, eth: Valset)
    reads if cosmos == null then {} else {cosmos.members}, eth.members
  {
    if cosmos == null then eth.nonce == 0
    else cosmos.nonce == eth.nonce && multiset(cosmos.members[..]) == multiset(eth.members[..])
  }

  method CompareMembers(a: seq<Member>, b: seq<Member>) returns (reports: seq<Report>)
    requires |a| == |b|
    ensures reports == [] <==> a == b
  {
    reports := [];
    for idx := 0 to |a|
      invariant reports == [] <==> a[..idx] == b[..idx]
    {
      assert a[..idx + 1] == a[..idx] + [a[idx]] && b[..idx + 1] == b[..idx] + [b[idx]];
      if b[idx].address != a[idx].address { reports := reports + [DifferentAddress(idx)]; }
      if b[idx].power != a[idx].power { reports := reports + [DifferentPower(idx)]; }
    }
    assert a[..|a|] == a && b[..|b|] == b;
  }

  /** Nothing is reported exactly when the sets match; the members are only rearranged. */
  method CheckIfValsetsDiffer(cosmos: Valset?, eth: Valset) returns (reports: seq<Report>)
    modifies if cosmos == null then {} else {cosmos.members}, eth.members
    ensures reports == [] <==> old(Matching(cosmos, eth))
    ensures cosmos != null ==> multiset(cosmos.members[..]) == old(multiset(cosmos.members[..]))
    ensures multiset(eth.members[..]) == old(multiset(eth.members[..]))
  {
    if cosmos == null && eth.nonce == 0 { return []; }
    if cosmos == null { return [NoValsetOnCosmos]; }
    if cosmos.nonce != eth.nonce { return [WrongNonce]; }
    ghost var a, b := cosmos.members[..], eth.members[..];
    if cosmos.members.Length != eth.members.Length {
      assert |multiset(a)| == |a| && |multiset(b)| == |b|;
      return [DifferentLength];
    }
    SortMembers(cosmos.members);
    ghost var b' := eth.members[..];
    SortMembers(eth.members);
    SortedFormsAgree(a, b);
    SortedFormsAgree(b', b);
    SortedFormsAgree(cosmos.members[..], a);
    reports := CompareMembers(cosmos.members[..], eth.members[..]);
  }

  // ---------- duplicates ----------

  function Addresses(ms: seq<Member>): set<string> {
    set m | m in ms :: m.address
  }

  ghost predicate Distinct(ms: seq<Member>) {
    forall i, j :: 0 <= i < j < |ms| ==> ms[i].address != ms[j].address
  }

  lemma AddressKnown(ms: seq<Member>, a: string)
    ensures a in Addresses(ms) <==> exists k :: 0 <= k < |ms| && ms[k].address == a
  {
    if a in Addresses(ms) {
      var m :| m in ms && m.address == a;
    }
  }

  lemma DistinctSnoc(front: seq<Member>, last: Member)
    ensures Distinct(front + [last]) <==> Distinct(front) && last.address !in Addresses(front)
  {
    AddressKnown(front, last.address);
    var ms := front + [last];
    if Distinct(ms) {
      forall i, j | 0 <= i < j < |front| ensures front[i].address != front[j].address {
        assert ms[i].address != ms[j].address;
      }
      forall k | 0 <= k < |front| ensures front[k].address != last.address {
        assert ms[k].address != ms[|front|].address;
      }
    }
  }

  lemma {:induction false} AddressesCount(ms: seq<Member>)
    ensures |Addresses(ms)| <= |ms|
    ensures |Addresses(ms)| == |ms| <==> Distinct(ms)
  {
    if ms != [] {
      var n := |ms| - 1;
      AddressesCount(ms[..n]);
      DistinctSnoc(ms[..n], ms[n]);
      assert ms == ms[..n] + [ms[n]];
      assert Addresses(ms) == Addresses(ms[..n]) + {ms[n].address};
    }
  }

  /** HasDuplicates: fewer distinct addresses than members. */
  method HasDuplicates(ms: seq<Member>) returns (dup: bool)
    ensures dup <==> exists i, j :: 0 <= i < j < |ms| && ms[i].address == ms[j].address
  {
    var seen: set<string> := {};
    for i := 0 to |ms|
      invariant seen == Addresses(ms[..i])
    {
      assert ms[..i + 1] == ms[..i] + [ms[i]];
      seen := seen + {ms[i].address};
    }
    assert ms[..|ms|] == ms;
    AddressesCount(ms);
    dup := |seen| != |ms|;
  }
}
