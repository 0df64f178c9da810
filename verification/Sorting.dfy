/**
  Sorting by a caller-supplied "comes before" test, as Go's sort.Slice is used by the
  orchestrator.  The order is any strict order that separates the elements actually being
  sorted, so the same lemmas serve events ordered by nonce and validators ordered by power
  and address.
 */
module Sorting {

  /** No later element comes before an earlier one. */
  ghost predicate Sorted<T>(s: seq<T>, less: (T, T) -> bool) {
    forall i, j :: 0 <= i < j < |s| ==> !less(s[j], s[i])
  }

  /** `less` is a strict order on the elements of `s`. */
  ghost predicate StrictOrder<T>(s: seq<T>, less: (T, T) -> bool) {
    && (forall x :: x in s ==> !less(x, x))
    && (forall x, y, z :: x in s && y in s && z in s && less(x, y) && less(y, z) ==> less(x, z))
  }

  /** ... and two elements it cannot separate are equal. */
  ghost predicate Separates<T>(s: seq<T>, less: (T, T) -> bool) {
    && StrictOrder(s, less)
    && (forall x, y :: x in s && y in s && !less(x, y) && !less(y, x) ==> x == y)
  }

  /** Puts `x` in front of the first element that `x` comes before. */
  function Insert<T>(x: T, s: seq<T>, less: (T, T) -> bool): (r: seq<T>)
    ensures multiset(r) == multiset([x]) + multiset(s)
  {
    if s == [] then [x]
    else if less(x, s[0]) then [x] + s
    else
      assert s == [s[0]] + s[1..];
      [s[0]] + Insert(x, s[1..], less)
  }

  /** Rearranges `s` so that no later element comes before an earlier one. */
  function Sort<T>(s: seq<T>, less: (T, T) -> bool): (r: seq<T>)
    ensures multiset(r) == multiset(s)
  {
    if s == [] then []
    else
      assert s == [s[0]] + s[1..];
      Insert(s[0], Sort(s[1..], less), less)
  }

  lemma ElementOf<T>(x: T, a: seq<T>, b: seq<T>)
    requires multiset(a) == multiset(b) && x in a
    ensures x in b
  {
    assert x in multiset(b);
  }

  lemma SeparatesRearranged<T>(a: seq<T>, b: seq<T>, less: (T, T) -> bool)
    requires Separates(b, less) && multiset(a) == multiset(b)
    ensures Separates(a, less)
  {
    forall x | x in a ensures x in b { ElementOf(x, a, b); }
    SeparatesSubset(a, b, less);
  }

  lemma SeparatesSubset<T>(a: seq<T>, b: seq<T>, less: (T, T) -> bool)
    requires Separates(b, less)
    requires forall x :: x in a ==> x in b
    ensures Separates(a, less)
  {
  }

  lemma OrderSubset<T>(a: seq<T>, b: seq<T>, less: (T, T) -> bool)
    requires StrictOrder(b, less)
    requires forall x :: x in a ==> x in b
    ensures StrictOrder(a, less)
  {
  }

  lemma {:induction false} InsertSorted<T>(x: T, s: seq<T>, less: (T, T) -> bool)
    requires Sorted(s, less) && StrictOrder([x] + s, less)
    ensures Sorted(Insert(x, s, less), less)
  {
    if s != [] && !less(x, s[0]) {
      var rest := Insert(x, s[1..], less);
      OrderSubset([x] + s[1..], [x] + s, less);
      InsertSorted(x, s[1..], less);
      assert multiset(rest) == multiset([x] + s[1..]);
      forall j | 0 <= j < |rest| ensures !less(rest[j], s[0]) {
        ElementOf(rest[j], rest, [x] + s[1..]);
        if rest[j] != x {
          var k :| 0 <= k < |s[1..]| && s[1..][k] == rest[j];
          assert s[k + 1] == rest[j];
        }
      }
    } else if s != [] {
      forall j | 0 <= j < |s| ensures !less(s[j], x) {
        assert x in [x] + s && s[0] in [x] + s && s[j] in [x] + s;
      }
    }
  }

  /** Sort meets the contract of sort.Slice: an ordered rearrangement. */
  lemma {:induction false} SortSorted<T>(s: seq<T>, less: (T, T) -> bool)
    requires StrictOrder(s, less)
    ensures Sorted(Sort(s, less), less)
    ensures multiset(Sort(s, less)) == multiset(s)
  {
    if s != [] {
      var rest := Sort(s[1..], less);
      OrderSubset(s[1..], s, less);
      SortSorted(s[1..], less);
      assert s == [s[0]] + s[1..];
      forall x | x in [s[0]] + rest ensures x in s { ElementOf(x, [s[0]] + rest, s); }
      OrderSubset([s[0]] + rest, s, less);
      InsertSorted(s[0], rest, less);
    }
  }

  lemma SameFirst<T>(a: seq<T>, b: seq<T>, less: (T, T) -> bool)
    requires multiset(a) == multiset(b) && a != [] && b != []
    requires Sorted(a, less) && Sorted(b, less) && Separates(a, less)
    ensures a[0] == b[0]
  {
    ElementOf(a[0], a, b);
    ElementOf(b[0], b, a);
    var k :| 0 <= k < |b| && b[k] == a[0];
    var m :| 0 <= m < |a| && a[m] == b[0];
    assert !less(a[0], a[0]) && !less(a[m], a[m]);
    if k > 0 && m > 0 {
      assert !less(b[k], b[0]) && !less(a[m], a[0]);
    }
  }

  /** A multiset has one ordered listing: the order is canonical. */
  lemma {:induction false} OrderedListingUnique<T>(a: seq<T>, b: seq<T>, less: (T, T) -> bool)
    requires multiset(a) == multiset(b)
    requires Sorted(a, less) && Sorted(b, less) && Separates(a, less)
    ensures a == b
  {
    assert |a| == |multiset(a)| == |multiset(b)| == |b|;
    if a != [] {
      SameFirst(a, b, less);
      assert a == [a[0]] + a[1..] && b == [b[0]] + b[1..];
      assert multiset(a[1..]) == multiset(a) - multiset([a[0]]);
      assert multiset(b[1..]) == multiset(b) - multiset([b[0]]);
      SeparatesSubset(a[1..], a, less);
      OrderedListingUnique(a[1..], b[1..], less);
    }
  }
}
